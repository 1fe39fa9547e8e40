/**
 * The string post-processing of Source/Strings.cpp: splitting the executable's path, completing
 * the system directory, assembling the library, configuration and log file names, and trimming
 * system error text. The Windows calls that supply the raw strings are inputs here.
 */
module PathStrings {
  import opened Wrappers

  const BACKSLASH: char := '\\'
  const NUL: char := '\0'

  /** kStrLibraryNameDirectInput, kStrLibraryNameDirectInput8 and kStrLibraryNameWinMM (Include/Xidi/Strings.h). */
  const LIBRARY_DIRECTINPUT: string := "dinput.dll"
  const LIBRARY_DIRECTINPUT8: string := "dinput8.dll"
  const LIBRARY_WINMM: string := "winmm.dll"
  /** kStrConfigurationFileExtension and kStrLogFileExtension. */
  const CONFIGURATION_EXTENSION: string := ".ini"
  const LOG_EXTENSION: string := ".log"

  /** wcsrchr(path, L'\\'): the position of the last backslash, if there is one. */
  function LastBackslash(path: string): (r: Option<nat>)
    ensures r.Some? ==> r.value < |path| && path[r.value] == BACKSLASH
    ensures r.Some? ==> forall j :: r.value < j < |path| ==> path[j] != BACKSLASH
    ensures r.None? <==> BACKSLASH !in path
  {
    if |path| == 0 then None
    else if path[|path| - 1] == BACKSLASH then Some(|path| - 1)
    else
      var r := LastBackslash(path[..|path| - 1]);
      assert path == path[..|path| - 1] + [path[|path| - 1]];
      r
  }

  /** GetExecutableBaseName: the text after the last backslash, or the whole path without one. */
  function ExecutableBaseName(path: string): (base: string)
    ensures BACKSLASH !in base
    ensures BACKSLASH !in path ==> base == path
  {
    match LastBackslash(path)
    case None => path
    case Some(k) => path[k + 1..]
  }

  /** GetExecutableDirectoryName: the text through the last backslash, or empty without one. */
  function ExecutableDirectoryName(path: string): (dir: string)
    ensures dir == [] || dir[|dir| - 1] == BACKSLASH
    ensures BACKSLASH !in path ==> dir == []
  {
    match LastBackslash(path)
    case None => []
    case Some(k) => path[..k + 1]
  }

  /** The directory and the base name put back together give the path. */
  lemma DirectoryThenBaseIsPath(path: string)
    ensures ExecutableDirectoryName(path) + ExecutableBaseName(path) == path
  {
  }

  /** A directory ending in a backslash joined to a name without one splits back into the two. */
  lemma SplitJoined(dir: string, name: string)
    requires dir != [] && dir[|dir| - 1] == BACKSLASH
    requires BACKSLASH !in name
    ensures ExecutableDirectoryName(dir + name) == dir
    ensures ExecutableBaseName(dir + name) == name
  {
    var path := dir + name;
    assert path[|dir| - 1] == BACKSLASH;
    assert forall j :: |dir| <= j < |path| ==> path[j] == name[j - |dir|];
    var k := LastBackslash(path).value;
    assert k == |dir| - 1;
  }

  /**
   * GetSystemDirectoryName: the directory GetSystemDirectory reports, with a backslash appended
   * unless it already ends in one. The source reads the character before the first, so an empty
   * answer is excluded.
   */
  function SystemDirectoryName(reported: string): (dir: string)
    requires |reported| > 0
    ensures |dir| > 0 && dir[|dir| - 1] == BACKSLASH
    ensures reported[|reported| - 1] == BACKSLASH ==> dir == reported
    ensures reported[|reported| - 1] != BACKSLASH ==> dir == reported + [BACKSLASH]
  {
    if reported[|reported| - 1] != BACKSLASH then reported + [BACKSLASH] else reported
  }

  /** Completing the system directory a second time changes nothing. */
  lemma SystemDirectoryIdempotent(reported: string)
    requires |reported| > 0
    ensures SystemDirectoryName(SystemDirectoryName(reported)) == SystemDirectoryName(reported)
  {
  }

  /** The system libraries Xidi imports. */
  datatype SystemLibrary = DirectInputLibrary | DirectInput8Library | WinMMLibrary

  function LibraryName(lib: SystemLibrary): (name: string)
    ensures BACKSLASH !in name
  {
    match lib
    case DirectInputLibrary => LIBRARY_DIRECTINPUT
    case DirectInput8Library => LIBRARY_DIRECTINPUT8
    case WinMMLibrary => LIBRARY_WINMM
  }

  /** GetSystemLibraryFilename*: the system directory followed by the library's name. */
  function SystemLibraryFilename(reported: string, lib: SystemLibrary): (filename: string)
    requires |reported| > 0
    ensures ExecutableDirectoryName(filename) == SystemDirectoryName(reported)
    ensures ExecutableBaseName(filename) == LibraryName(lib)
  {
    var filename := SystemDirectoryName(reported) + LibraryName(lib);
    SplitJoined(SystemDirectoryName(reported), LibraryName(lib));
    filename
  }

  /** GetConfigurationFilename: the executable's directory, the product name and ".ini". */
  function ConfigurationFilename(executablePath: string, productName: string): (filename: string)
    ensures |filename| >= |ExecutableDirectoryName(executablePath)| + |CONFIGURATION_EXTENSION|
    ensures filename[..|ExecutableDirectoryName(executablePath)|] == ExecutableDirectoryName(executablePath)
    ensures filename[|filename| - |CONFIGURATION_EXTENSION|..] == CONFIGURATION_EXTENSION
  {
    ExecutableDirectoryName(executablePath) + productName + CONFIGURATION_EXTENSION
  }

  /** A product name without backslashes leaves the configuration file in the executable's directory. */
  lemma ConfigurationBesideExecutable(executablePath: string, productName: string)
    requires BACKSLASH in executablePath && BACKSLASH !in productName
    ensures ExecutableDirectoryName(ConfigurationFilename(executablePath, productName)) == ExecutableDirectoryName(executablePath)
    ensures ExecutableBaseName(ConfigurationFilename(executablePath, productName)) == productName + CONFIGURATION_EXTENSION
  {
    SplitJoined(ExecutableDirectoryName(executablePath), productName + CONFIGURATION_EXTENSION);
    assert ConfigurationFilename(executablePath, productName)
        == ExecutableDirectoryName(executablePath) + (productName + CONFIGURATION_EXTENSION);
  }

  /** A decimal digit's character. */
  function DigitChar(d: nat): (c: char)
    requires d < 10
    ensures '0' <= c <= '9'
    ensures DigitValue(c) == d
  {
    (('0' as int) + d) as char
  }

  /** The value of a decimal digit character. */
  function DigitValue(c: char): (d: nat)
    requires '0' <= c <= '9'
    ensures d < 10
  {
    (c as int) - ('0' as int)
  }

  /** A number in decimal, as a stream's `<<` writes an unsigned value. */
  function Decimal(n: nat): (s: string)
    ensures |s| >= 1
    ensures forall i :: 0 <= i < |s| ==> '0' <= s[i] <= '9'
    ensures s[0] == '0' ==> n == 0
  {
    if n < 10 then [DigitChar(n)] else Decimal(n / 10) + [DigitChar(n % 10)]
  }

  /** Reads a string of decimal digits back as a number. */
  function ParseDecimal(s: string): (n: nat)
    requires forall i :: 0 <= i < |s| ==> '0' <= s[i] <= '9'
  {
    if |s| == 0 then 0 else 10 * ParseDecimal(s[..|s| - 1]) + DigitValue(s[|s| - 1])
  }

  /** Writing a number in decimal and reading it back gives the number. */
  lemma {:induction false} DecimalRoundTrip(n: nat)
    ensures ParseDecimal(Decimal(n)) == n
  {
    var s := Decimal(n);
    if n >= 10 {
      var high := Decimal(n / 10);
      assert s == high + [DigitChar(n % 10)];
      assert s[..|s| - 1] == high;
      DecimalRoundTrip(n / 10);
      assert ParseDecimal(s) == 10 * ParseDecimal(high) + DigitValue(DigitChar(n % 10));
    }
  }

  /**
   * GetLogFilename: the desktop directory and a backslash when the desktop is known, then the
   * product name, version name, executable base name and process id joined by underscores, then
   * ".log".
   */
  function LogFilename(desktop: Option<string>, productName: string, versionName: string,
                       executablePath: string, processId: nat): (filename: string)
    ensures desktop.Some? ==> |filename| > |desktop.value| && filename[..|desktop.value| + 1] == desktop.value + [BACKSLASH]
    ensures |filename| >= |LOG_EXTENSION| && filename[|filename| - |LOG_EXTENSION|..] == LOG_EXTENSION
    ensures desktop.None? && BACKSLASH !in productName && BACKSLASH !in versionName ==> BACKSLASH !in filename
  {
    var prefix := if desktop.Some? then desktop.value + [BACKSLASH] else [];
    var name := LogBaseName(productName, versionName, ExecutableBaseName(executablePath), processId);
    JoinedParts(prefix, name, LOG_EXTENSION);
    var filename := prefix + name;
    filename
  }

  /** A joined path starts with its first part, ends with any suffix of its second, and has a backslash only from a part. */
  lemma JoinedParts(prefix: string, name: string, suffix: string)
    requires |name| >= |suffix| && name[|name| - |suffix|..] == suffix
    ensures (prefix + name)[..|prefix|] == prefix
    ensures (prefix + name)[|prefix + name| - |suffix|..] == suffix
    ensures BACKSLASH !in prefix && BACKSLASH !in name ==> BACKSLASH !in prefix + name
  {
    var joined := prefix + name;
    assert joined[|prefix|..] == name;
    assert joined[|joined| - |suffix|..] == joined[|prefix|..][|name| - |suffix|..];
  }

  /** The log file's own name: product, version, executable base name and process id joined by underscores, then ".log". */
  function LogBaseName(productName: string, versionName: string, executableBase: string, processId: nat): (name: string)
    ensures BACKSLASH !in productName && BACKSLASH !in versionName && BACKSLASH !in executableBase ==> BACKSLASH !in name
    ensures |name| >= |LOG_EXTENSION| && name[|name| - |LOG_EXTENSION|..] == LOG_EXTENSION
  {
    var pid := Decimal(processId);
    assert BACKSLASH !in pid by {
      assert forall i :: 0 <= i < |pid| ==> pid[i] != BACKSLASH;
    }
    var name := productName + "_" + versionName + "_" + executableBase + "_" + pid + LOG_EXTENSION;
    name
  }

  /**
   * With a desktop directory and product and version names free of backslashes, the log file lies
   * in the desktop directory, and its name ends in the executable's base name, the process id and
   * ".log".
   */
  lemma LogFileOnDesktop(desktop: string, productName: string, versionName: string,
                         executablePath: string, processId: nat)
    requires BACKSLASH !in productName && BACKSLASH !in versionName
    ensures var filename := LogFilename(Some(desktop), productName, versionName, executablePath, processId);
            && ExecutableDirectoryName(filename) == desktop + [BACKSLASH]
            && ExecutableBaseName(filename) == LogBaseName(productName, versionName, ExecutableBaseName(executablePath), processId)
  {
    var name := LogBaseName(productName, versionName, ExecutableBaseName(executablePath), processId);
    SplitJoined(desktop + [BACKSLASH], name);
  }

  /**
   * Without a desktop directory, the log file is a bare name, which Windows resolves against the
   * working directory: it has no directory part and is exactly the log file's own name.
   */
  lemma LogFileWithoutDesktop(productName: string, versionName: string, executablePath: string, processId: nat)
    requires BACKSLASH !in productName && BACKSLASH !in versionName
    ensures var filename := LogFilename(None, productName, versionName, executablePath, processId);
            && ExecutableDirectoryName(filename) == []
            && ExecutableBaseName(filename) == LogBaseName(productName, versionName, ExecutableBaseName(executablePath), processId)
  {
  }

  /** What the trim loop removes: terminating NULs and white space (iswspace in the C locale). */
  predicate Trimmable(c: char) {
    c == NUL || c in {' ', '\t', '\n', '\U{B}', '\U{C}', '\r'}
  }

  /** The buffer FormatMessage fills: the text followed by its terminating NUL. */
  function BufferAt(text: string, k: nat): (c: char)
    requires k <= |text|
  {
    if k < |text| then text[k] else NUL
  }

  /**
   * The trim loop of SystemErrorCodeString, from position `k` down: positions are cleared while
   * they hold a trimmable character, stopping at the first that does not or at position 0, which
   * is never examined. The result is the last position kept.
   */
  function TrimFrom(text: string, k: nat): (last: nat)
    requires k <= |text|
    ensures last <= k
    ensures forall i :: last < i <= k ==> Trimmable(BufferAt(text, i))
    ensures last == 0 || !Trimmable(BufferAt(text, last))
  {
    if k == 0 then 0
    else if !Trimmable(BufferAt(text, k)) then k
    else TrimFrom(text, k - 1)
  }

  /** The characters before the first NUL, as std::wstring reads a terminated buffer. */
  function UntilNul(s: string): (r: string)
    ensures |r| <= |s| && r == s[..|r|]
    ensures NUL !in r
    ensures |r| < |s| ==> s[|r|] == NUL
  {
    if |s| == 0 then []
    else if s[0] == NUL then []
    else [s[0]] + UntilNul(s[1..])
  }

  /** The decimal text of an error code that has no system message: "System error <code>.". */
  function FallbackErrorText(code: nat): (text: string)
  {
    "System error " + Decimal(code) + "."
  }

  /**
   * SystemErrorCodeString: with no system message (FormatMessage wrote nothing) the fallback text;
   * otherwise the message with its trailing white space and NULs removed, never below its first
   * character.
   */
  function SystemErrorCodeString(code: nat, message: string): (r: string)
    ensures |message| == 0 ==> r == FallbackErrorText(code)
    ensures |message| > 0 ==> |r| <= |message| && r == message[..|r|]
    ensures |message| > 0 && message[0] != NUL ==> |r| >= 1
    ensures |message| > 0 && NUL !in message ==>
              (forall i :: |r| <= i < |message| ==> Trimmable(message[i]))
              && (|r| == 1 || !Trimmable(r[|r| - 1]))
  {
    if |message| == 0 then FallbackErrorText(code)
    else
      var last := TrimFrom(message, |message|);
      assert last < |message| by {
        assert Trimmable(BufferAt(message, |message|));
      }
      var kept := message[..last + 1];
      assert NUL !in message ==> UntilNul(kept) == kept by {
        if NUL !in message {
          assert NUL !in kept;
        }
      }
      assert forall i :: last < i < |message| ==> Trimmable(message[i]) by {
        forall i | last < i < |message|
          ensures Trimmable(message[i])
        {
          assert BufferAt(message, i) == message[i];
        }
      }
      UntilNul(kept)
  }
}
