/**
 * Building mappers at run time from named blueprints, as the test cases of
 * Source/Test/Case/MapperBuilderTest.cpp describe the builder (MapperBuilder.cpp itself is not
 * part of this model).
 *
 * A blueprint has a template name (empty for none) and sparse overrides of element-map slots: a
 * mapper, or a null mapper that removes the slot. Building a blueprint starts from its template's
 * element map, building the template first when it is another blueprint, applies the overrides,
 * and registers the result under the blueprint's name. Element mappers are opaque and compared
 * by their target elements.
 */
module MapperBuilder {
  import opened Wrappers

  /** An element mapper, known only by the controller elements it targets. */
  datatype ElementMapper = ElementMapper(targets: seq<int>)

  /** An element map: the mapper in each occupied slot; an absent slot holds no mapper. */
  type ElementMap = map<nat, ElementMapper>

  /** The global mapper registry: every registered mapper's element map, by name. */
  type Registry = map<string, ElementMap>

  /** A blueprint: its template name ("" for none) and its slot overrides (None removes the slot). */
  datatype Blueprint = Blueprint(template: string, overrides: map<nat, Option<ElementMapper>>)

  /** The builder: its blueprints by name. Names are compared exactly, so case matters. */
  datatype Builder = Builder(blueprints: map<string, Blueprint>)

  /** DoesBlueprintNameExist. */
  predicate BlueprintExists(b: Builder, name: string) {
    name in b.blueprints
  }

  /**
   * CreateBlueprint: a name already used by a blueprint or by a registered mapper is refused and
   * nothing changes; otherwise a blueprint with no template and no overrides is added.
   */
  function CreateBlueprint(b: Builder, reg: Registry, name: string): (r: (bool, Builder))
    ensures r.0 <==> name !in b.blueprints && name !in reg
    ensures !r.0 ==> r.1 == b
    ensures r.0 ==> r.1.blueprints == b.blueprints[name := Blueprint("", map[])]
  {
    if name in b.blueprints || name in reg then (false, b)
    else (true, Builder(b.blueprints[name := Blueprint("", map[])]))
  }

  /** GetBlueprintTemplate: the template name, absent for an unknown blueprint. */
  function GetBlueprintTemplate(b: Builder, name: string): (r: Option<string>)
    ensures r.Some? <==> name in b.blueprints
  {
    if name in b.blueprints then Some(b.blueprints[name].template) else None
  }

  /** GetBlueprintElementMapSpec: the overrides, absent for an unknown blueprint. */
  function GetBlueprintElementMapSpec(b: Builder, name: string): (r: Option<map<nat, Option<ElementMapper>>>)
    ensures r.Some? <==> name in b.blueprints
  {
    if name in b.blueprints then Some(b.blueprints[name].overrides) else None
  }

  /**
   * SetBlueprintElementMapper: records `m` (None for removal) at `slot` of a known blueprint; an
   * unknown blueprint or a negative slot is refused and nothing changes.
   */
  function SetBlueprintElementMapper(b: Builder, name: string, slot: int, m: Option<ElementMapper>): (r: (bool, Builder))
    ensures r.0 <==> name in b.blueprints && slot >= 0
    ensures !r.0 ==> r.1 == b
    ensures r.0 ==> r.1.blueprints.Keys == b.blueprints.Keys
    ensures r.0 ==> r.1.blueprints[name] == b.blueprints[name].(overrides := b.blueprints[name].overrides[slot as nat := m])
    ensures r.0 ==> forall n :: n in b.blueprints && n != name ==> r.1.blueprints[n] == b.blueprints[n]
  {
    if name !in b.blueprints || slot < 0 then (false, b)
    else
      var bp := b.blueprints[name];
      (true, Builder(b.blueprints[name := bp.(overrides := bp.overrides[slot as nat := m])]))
  }

  /**
   * ClearBlueprintElementMapper: removes the override at `slot`; an unknown blueprint, a
   * negative slot or a slot with no override is refused and nothing changes.
   */
  function ClearBlueprintElementMapper(b: Builder, name: string, slot: int): (r: (bool, Builder))
    ensures r.0 <==> name in b.blueprints && slot >= 0 && slot as nat in b.blueprints[name].overrides
    ensures !r.0 ==> r.1 == b
    ensures r.0 ==> r.1.blueprints.Keys == b.blueprints.Keys
    ensures r.0 ==> r.1.blueprints[name] == b.blueprints[name].(overrides := b.blueprints[name].overrides - {slot as nat})
    ensures r.0 ==> forall n :: n in b.blueprints && n != name ==> r.1.blueprints[n] == b.blueprints[n]
  {
    if name !in b.blueprints || slot < 0 || slot as nat !in b.blueprints[name].overrides then (false, b)
    else
      var bp := b.blueprints[name];
      (true, Builder(b.blueprints[name := bp.(overrides := bp.overrides - {slot as nat})]))
  }

  /**
   * SetBlueprintTemplate: stores the template name of a known blueprint without checking it;
   * it may be unknown or the blueprint's own name. An unknown blueprint is refused.
   */
  function SetBlueprintTemplate(b: Builder, name: string, template: string): (r: (bool, Builder))
    ensures r.0 <==> name in b.blueprints
    ensures !r.0 ==> r.1 == b
    ensures r.0 ==> r.1.blueprints == b.blueprints[name := b.blueprints[name].(template := template)]
  {
    if name !in b.blueprints then (false, b)
    else (true, Builder(b.blueprints[name := b.blueprints[name].(template := template)]))
  }

  /** The element map of a base map with overrides applied: an override replaces or empties its slot. */
  function ApplyOverrides(base: ElementMap, overrides: map<nat, Option<ElementMapper>>): (r: ElementMap)
    ensures forall k :: k in overrides ==> (k in r <==> overrides[k].Some?)
    ensures forall k :: k in overrides && overrides[k].Some? ==> r[k] == overrides[k].value
    ensures forall k :: k !in overrides ==> (k in r <==> k in base)
    ensures forall k :: k !in overrides && k in base ==> r[k] == base[k]
  {
    map k | k in base.Keys + overrides.Keys && (k in overrides ==> overrides[k].Some?) ::
      if k in overrides then overrides[k].value else base[k]
  }

  /**
   * Builds blueprint `name` while the blueprints in `visiting` are being built further up. The
   * base map is empty without a template, the registered mapper's when the template is
   * registered, and otherwise the template blueprint's, built first, unless that blueprint is
   * already being built (a cycle). The result is registered under `name`.
   */
  function BuildFrom(bp: map<string, Blueprint>, reg: Registry, name: string, visiting: set<string>): (r: Option<Registry>)
    requires name in bp && name !in visiting
    ensures r.Some? ==> reg.Keys <= r.value.Keys && name in r.value
    ensures r.Some? ==> forall n :: n in reg && n !in bp ==> n in r.value && r.value[n] == reg[n]
    decreases bp.Keys - visiting
  {
    var blueprint := bp[name];
    var t := blueprint.template;
    var inner := visiting + {name};
    if t == "" then
      Some(reg[name := ApplyOverrides(map[], blueprint.overrides)])
    else if t in reg then
      Some(reg[name := ApplyOverrides(reg[t], blueprint.overrides)])
    else if t in bp && t !in inner then
      assert bp.Keys - inner < bp.Keys - visiting by {
        assert name in bp.Keys - visiting && name !in bp.Keys - inner;
      }
      var built := BuildFrom(bp, reg, t, inner);
      if built.None? then None
      else Some(built.value[name := ApplyOverrides(built.value[t], blueprint.overrides)])
    else None
  }

  /** Build: the updated registry, or None (a null mapper) when the blueprint is unknown or cannot be built. */
  function Build(b: Builder, reg: Registry, name: string): (r: Option<Registry>)
    ensures name !in b.blueprints ==> r.None?
    ensures r.Some? ==> reg.Keys <= r.value.Keys && name in r.value
  {
    if name !in b.blueprints then None else BuildFrom(b.blueprints, reg, name, {})
  }

  /** Without a template, the built mapper holds exactly the overrides that name a mapper. */
  lemma BuildWithoutTemplate(b: Builder, reg: Registry, name: string)
    requires name in b.blueprints && b.blueprints[name].template == ""
    ensures Build(b, reg, name).Some?
    ensures var m := Build(b, reg, name).value[name];
            var o := b.blueprints[name].overrides;
            forall k :: (k in m <==> k in o && o[k].Some?) && (k in m ==> m[k] == o[k].value)
  {
  }

  /** With a registered template, the built mapper is the template's map with the overrides applied. */
  lemma BuildFromRegisteredTemplate(b: Builder, reg: Registry, name: string)
    requires name in b.blueprints
    requires b.blueprints[name].template != "" && b.blueprints[name].template in reg
    ensures Build(b, reg, name) == Some(reg[name := ApplyOverrides(reg[b.blueprints[name].template], b.blueprints[name].overrides)])
  {
  }

  /** A template with no overrides is copied unchanged. */
  lemma NoOverridesCopiesTemplate(base: ElementMap)
    ensures ApplyOverrides(base, map[]) == base
  {
  }

  /** A blueprint that is its own template cannot be built, unless a mapper of that name is already registered. */
  lemma SelfTemplateFails(b: Builder, reg: Registry, name: string)
    requires name in b.blueprints && name != "" && name !in reg
    requires b.blueprints[name].template == name
    ensures Build(b, reg, name).None?
  {
  }

  /** A template that is neither a registered mapper nor a blueprint cannot be built from. */
  lemma UnknownTemplateFails(b: Builder, reg: Registry, name: string)
    requires name in b.blueprints
    requires var t := b.blueprints[name].template; t != "" && t !in reg && t !in b.blueprints
    ensures Build(b, reg, name).None?
  {
  }

  /** `names` form a template cycle: each names the next as its template, the last names the first. */
  ghost predicate TemplateCycle(bp: map<string, Blueprint>, reg: Registry, names: seq<string>) {
    && |names| > 0
    && (forall i :: 0 <= i < |names| ==> names[i] in bp && names[i] != "" && names[i] !in reg)
    && (forall i :: 0 <= i < |names| ==> bp[names[i]].template == names[(i + 1) % |names|])
  }

  /** On a template cycle with no registered member, building fails from every member. */
  lemma {:induction false} CycleFails(bp: map<string, Blueprint>, reg: Registry, names: seq<string>, k: nat, visiting: set<string>)
    requires TemplateCycle(bp, reg, names)
    requires k < |names| && names[k] !in visiting
    ensures BuildFrom(bp, reg, names[k], visiting).None?
    decreases bp.Keys - visiting
  {
    var next := (k + 1) % |names|;
    var t := names[next];
    var inner := visiting + {names[k]};
    assert bp[names[k]].template == t;
    if t !in inner {
      assert bp.Keys - inner < bp.Keys - visiting by {
        assert names[k] in bp.Keys - visiting && names[k] !in bp.Keys - inner;
      }
      CycleFails(bp, reg, names, next, inner);
    }
  }

  /** Build fails for every member of a template cycle. */
  lemma BuildFailsOnCycle(b: Builder, reg: Registry, names: seq<string>, k: nat)
    requires TemplateCycle(b.blueprints, reg, names) && k < |names|
    ensures Build(b, reg, names[k]).None?
  {
    CycleFails(b.blueprints, reg, names, k, {});
  }

  /**
   * `names` form a template chain: each names the next as its template and the last has none;
   * the names are distinct, non-empty and unregistered.
   */
  ghost predicate TemplateChain(bp: map<string, Blueprint>, reg: Registry, names: seq<string>) {
    && |names| > 0
    && (forall i :: 0 <= i < |names| ==> names[i] in bp && names[i] != "" && names[i] !in reg)
    && (forall i, j :: 0 <= i < j < |names| ==> names[i] != names[j])
    && (forall i :: 0 <= i < |names| - 1 ==> bp[names[i]].template == names[i + 1])
    && bp[names[|names| - 1]].template == ""
  }

  /** Building any link of a chain succeeds and registers it and every link after it. */
  lemma {:induction false} ChainBuilds(bp: map<string, Blueprint>, reg: Registry, names: seq<string>, k: nat, visiting: set<string>)
    requires TemplateChain(bp, reg, names)
    requires k < |names| && forall j :: k <= j < |names| ==> names[j] !in visiting
    ensures BuildFrom(bp, reg, names[k], visiting).Some?
    ensures forall j :: k <= j < |names| ==> names[j] in BuildFrom(bp, reg, names[k], visiting).value
    decreases |names| - k
  {
    if k < |names| - 1 {
      var inner := visiting + {names[k]};
      var t := names[k + 1];
      assert forall j :: k + 1 <= j < |names| ==> names[j] !in inner;
      ChainBuilds(bp, reg, names, k + 1, inner);
      assert t !in reg && t in bp && t !in inner;
    }
  }

  /** Building the head of an acyclic chain registers every link of it. */
  lemma BuildRegistersChain(b: Builder, reg: Registry, names: seq<string>)
    requires TemplateChain(b.blueprints, reg, names)
    ensures Build(b, reg, names[0]).Some?
    ensures forall j :: 0 <= j < |names| ==> names[j] in Build(b, reg, names[0]).value
  {
    ChainBuilds(b.blueprints, reg, names, 0, {});
  }

  /**
   * Two blueprints sharing a template blueprint both build: the first build registers the shared
   * template, and the second build uses the registered one.
   */
  lemma SharedTemplateBuildsForEach(b: Builder, reg: Registry, first: string, second: string, shared: string)
    requires first in b.blueprints && second in b.blueprints && shared in b.blueprints
    requires first != second && first != shared && second != shared && shared != ""
    requires first !in reg && second !in reg && shared !in reg
    requires b.blueprints[first].template == shared && b.blueprints[second].template == shared
    requires b.blueprints[shared].template == ""
    ensures Build(b, reg, first).Some?
    ensures var r1 := Build(b, reg, first).value;
            shared in r1 && Build(b, r1, second).Some?
            && first in Build(b, r1, second).value && shared in Build(b, r1, second).value
  {
    var none: set<string> := {};
    assert BuildFrom(b.blueprints, reg, shared, none + {first}).Some?;
    var r1 := Build(b, reg, first).value;
    assert shared in r1;
    assert r1[shared] == ApplyOverrides(map[], b.blueprints[shared].overrides);
    BuildFromRegisteredTemplate(b, r1, second);
  }

  /** Every operation on an unknown blueprint fails and leaves the builder as it was. */
  lemma UnknownBlueprintUnchanged(b: Builder, reg: Registry, name: string, slot: int, m: Option<ElementMapper>, template: string)
    requires name !in b.blueprints
    ensures SetBlueprintElementMapper(b, name, slot, m) == (false, b)
    ensures ClearBlueprintElementMapper(b, name, slot) == (false, b)
    ensures SetBlueprintTemplate(b, name, template) == (false, b)
    ensures GetBlueprintTemplate(b, name).None? && GetBlueprintElementMapSpec(b, name).None?
    ensures Build(b, reg, name).None?
  {
  }

  /** Setting and then clearing a slot restores the overrides that were there before it was first set. */
  lemma SetThenClearRestores(b: Builder, name: string, slot: nat, m: Option<ElementMapper>)
    requires name in b.blueprints && slot !in b.blueprints[name].overrides
    ensures var b1 := SetBlueprintElementMapper(b, name, slot, m).1;
            var r := ClearBlueprintElementMapper(b1, name, slot);
            r.0 && r.1 == b
  {
    var b1 := SetBlueprintElementMapper(b, name, slot, m).1;
    var r := ClearBlueprintElementMapper(b1, name, slot);
    assert r.1.blueprints[name].overrides == b.blueprints[name].overrides;
    assert r.1.blueprints == b.blueprints;
  }

  /** A new blueprint has no overrides and an empty template name; creating it again is refused. */
  lemma CreatedBlueprintIsEmpty(b: Builder, reg: Registry, name: string)
    requires name !in b.blueprints && name !in reg
    ensures var b1 := CreateBlueprint(b, reg, name).1;
            && GetBlueprintElementMapSpec(b1, name) == Some(map[])
            && GetBlueprintTemplate(b1, name) == Some("")
            && CreateBlueprint(b1, reg, name) == (false, b1)
  {
  }

  /**
   * Blueprint names are compared exactly, so any two distinct names, including two that differ
   * only in letter case, are independent: both can be created, in either order, with the same
   * outcome.
   */
  lemma CreateDistinctNamesCommute(b: Builder, reg: Registry, n1: string, n2: string)
    requires n1 != n2 && n1 !in b.blueprints && n2 !in b.blueprints && n1 !in reg && n2 !in reg
    ensures var x := CreateBlueprint(CreateBlueprint(b, reg, n1).1, reg, n2);
            var y := CreateBlueprint(CreateBlueprint(b, reg, n2).1, reg, n1);
            && x.0 && y.0 && x.1 == y.1
            && BlueprintExists(x.1, n1) && BlueprintExists(x.1, n2)
  {
    var x := CreateBlueprint(CreateBlueprint(b, reg, n1).1, reg, n2);
    var y := CreateBlueprint(CreateBlueprint(b, reg, n2).1, reg, n1);
    assert x.1.blueprints == y.1.blueprints;
  }
}
