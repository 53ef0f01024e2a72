/** The pure path helpers of PathHinter/PathHint.cs: style classification,
    the simulated backspace, the conversions between `/c/dir` and `C:\dir`,
    and the pieces of the directory lister that only compute on strings. */
module PathHint {
  import opened DotNet

  /** PathSuggestionStyle. */
  datatype Style = Windows | Linux

  /** Whether the two-character marker `:\` occurs somewhere in `path`. */
  function HasDriveMarker(path: string): (b: bool)
    ensures b <==> exists i :: 0 <= i < |path| - 1 && path[i] == ':' && path[i + 1] == '\\'
  {
    if |path| < 2 then false
    else if path[0] == ':' && path[1] == '\\' then true
    else
      HasDriveMarker(path[1..])
  }

  /** GetStyle: Windows exactly when the path contains `:\`, so "" is Linux. */
  function GetStyle(path: string): (s: Style)
    ensures s == Windows <==> exists i :: 0 <= i < |path| - 1 && path[i] == ':' && path[i + 1] == '\\'
    ensures path == [] ==> s == Linux
  {
    if HasDriveMarker(path) then Windows else Linux
  }

  /** SimulateBackspace: drop the last character, if there is one. */
  function SimulateBackspace(userInput: string): (r: string)
    ensures userInput == [] ==> r == []
    ensures userInput != [] ==> |r| == |userInput| - 1 && r <= userInput
  {
    if userInput == [] then [] else userInput[..|userInput| - 1]
  }

  /** The body of ToWinDir's `try` block, which may throw. */
  function WinDirSteps(path: string): (r: Result<string, Exception>)
  {
    if StartsWith(path, "/") then
      match Substring(path, 1, 1)
      case Failure(e) => Failure(e)
      case Success(letter) =>
        match Substring(path, 2, |path| - 2)
        case Failure(e) => Failure(e)
        case Success(rest) =>
          Success(ReplaceChar([ToUpper(letter[0])] + ":" + rest, '/', '\\'))
    else Success(ReplaceChar(path, '/', '\\'))
  }

  /** ToWinDir: `/c/dir` becomes `C:\dir`; a throwing conversion (only the
      bare root `/`) is caught and yields "". */
  function ToWinDir(path: string): (r: string)
    ensures path == "/" ==> r == ""
    ensures path != "/" ==> |r| == |path| && '/' !in r
    ensures |path| >= 2 && path[0] == '/' ==>
              r == ReplaceChar([ToUpper(path[1])] + ":" + path[2..], '/', '\\')
    ensures !StartsWith(path, "/") ==> r == ReplaceChar(path, '/', '\\')
  {
    match WinDirSteps(path)
    case Success(p) => p
    case Failure(_) => ""
  }

  lemma ToWinDirIdempotent(path: string)
    ensures ToWinDir(ToWinDir(path)) == ToWinDir(path)
  {
    var w := ToWinDir(path);
    assert !StartsWith(w, "/");
    assert ReplaceChar(w, '/', '\\') == w;
  }

  /** ToUnixDir: `C:\dir` becomes `/c/dir`. Throws on an empty path, on the
      drive letter `a`, and when nothing but colons is left to inspect. */
  function ToUnixDir(path: string): (r: Result<string, Exception>)
    ensures path == [] ==> r == Failure(IndexOutOfRange)
    ensures r == Failure(Argument) <==> path != [] && ToLower(path[0]) == 'a'
    ensures r == Failure(IndexOutOfRange) <==>
              forall i :: 0 <= i < |path| ==> path[i] == ':'
    ensures r.Failure? ==> r.error == Argument || r.error == IndexOutOfRange
    ensures r.Success? <==> path != [] && ToLower(path[0]) != 'a' && exists i :: 0 <= i < |path| && path[i] != ':'
    ensures r.Success? && path[0] != ':' ==> ':' !in r.value && '\\' !in r.value
    ensures r.Success? && path[0] != ':' && !IsLetter(path[0]) ==> r.value == ReplaceChar(RemoveChar(path, ':'), '\\', '/')
    ensures path != [] && IsLetter(path[0]) && ToLower(path[0]) != 'a' ==>
              r == Success(['/', ToLower(path[0])] + ReplaceChar(RemoveChar(path[1..], ':'), '\\', '/'))
  {
    if path == [] then Failure(IndexOutOfRange)
    else
      var driveLetter := ToLower(path[0]);
      if driveLetter == 'a' then Failure(Argument)
      else
        var p := ReplaceChar(RemoveChar(path, ':'), '\\', '/');
        assert path[0] != ':' ==> RemoveChar(path, ':') == [path[0]] + RemoveChar(path[1..], ':');
        CleanAfterRemoval(RemoveChar(path, ':'));
        if p == [] then Failure(IndexOutOfRange)
        else if IsLetter(p[0]) then
          assert path[0] != ':' ==> p[0] == path[0];
          Success(['/', driveLetter] + p[1..])
        else Success(p)
  }

  /** Once the colons are gone, replacing every `\` by `/` leaves neither. */
  lemma CleanAfterRemoval(q: string)
    requires ':' !in q
    ensures ':' !in ReplaceChar(q, '\\', '/') && '\\' !in ReplaceChar(q, '\\', '/')
  {
    var p := ReplaceChar(q, '\\', '/');
    forall i | 0 <= i < |p|
      ensures p[i] != ':' && p[i] != '\\'
    {
      assert q[i] in q;
    }
  }

  /** With a leading colon the colon survives as the "drive letter". */
  lemma ToUnixDirLeadingColon()
    ensures ToUnixDir(":c") == Success("/:")
  {
    assert RemoveChar(":c", ':') == "c" by {
      assert ":c"[1..] == "c";
      assert RemoveChar("c", ':') == "c";
    }
    assert ReplaceChar("c", '\\', '/') == "c";
    assert ToLower(':') == ':';
    assert ['/', ':'] + "c"[1..] == "/:";
  }

  /** A leading colon followed by a non-letter is simply removed. */
  lemma ToUnixDirColonDigit()
    ensures ToUnixDir(":1") == Success("1")
  {
    assert RemoveChar(":1", ':') == "1" by {
      assert ":1"[1..] == "1";
      assert RemoveChar("1", ':') == "1";
    }
    assert ReplaceChar("1", '\\', '/') == "1";
  }

  /** ToUnixDir undoes ToWinDir on `/<drive>/<rest>` paths whose drive is a
      lower-case letter other than `a` and whose rest has no `:` or `\`. */
  lemma WinUnixRoundTrip(drive: char, rest: string)
    requires IsAsciiLower(drive) && drive != 'a'
    requires ':' !in rest && '\\' !in rest
    ensures ToWinDir(['/', drive] + rest) == [ToUpper(drive), ':'] + ReplaceChar(rest, '/', '\\')
    ensures ToUnixDir(ToWinDir(['/', drive] + rest)) == Success(['/', drive] + rest)
  {
    ToWinDirOfDrive(drive, rest);
    LowerOfUpper(drive);
    ToUnixDirOfDrive(ToUpper(drive), ReplaceChar(rest, '/', '\\'));
    SeparatorsBack(rest);
  }

  /** ToWinDir on `/<drive><rest>`: the drive letter goes up-case and gains a colon. */
  lemma ToWinDirOfDrive(drive: char, rest: string)
    requires IsAsciiLower(drive)
    ensures ToWinDir(['/', drive] + rest) == [ToUpper(drive), ':'] + ReplaceChar(rest, '/', '\\')
  {
    var p := ['/', drive] + rest;
    assert p[2..] == rest;
    var w := ReplaceChar([ToUpper(drive)] + ":" + rest, '/', '\\');
    assert w[0] == ToUpper(drive) && w[1] == ':';
    assert w == [ToUpper(drive), ':'] + ReplaceChar(rest, '/', '\\');
  }

  /** ToUnixDir on `<Drive>:<tail>` when the tail holds no further colon. */
  lemma ToUnixDirOfDrive(upper: char, tail: string)
    requires IsLetter(upper) && ToLower(upper) != 'a' && ':' !in tail
    ensures ToUnixDir([upper, ':'] + tail) == Success(['/', ToLower(upper)] + ReplaceChar(tail, '\\', '/'))
  {
    var w := [upper, ':'] + tail;
    assert w[1..] == [':'] + tail;
    assert ([':'] + tail)[1..] == tail;
    assert RemoveChar([':'] + tail, ':') == tail;
  }

  /** Turning `/` into `\` and back restores a string that had no `\`. */
  lemma SeparatorsBack(s: string)
    requires '\\' !in s
    ensures ReplaceChar(ReplaceChar(s, '/', '\\'), '\\', '/') == s
  {
    var back := ReplaceChar(ReplaceChar(s, '/', '\\'), '\\', '/');
    forall i | 0 <= i < |s|
      ensures back[i] == s[i]
    {
      assert s[i] in s;
    }
  }

  /** SanitizePath: remove the parent path, then every separator. An empty
      parent makes String.Replace throw. */
  function SanitizePath(dir: string, path: string): (r: Result<string, Exception>)
    ensures r.Failure? <==> path == []
    ensures r.Failure? ==> r.error == Argument
    ensures r.Success? ==> '\\' !in r.value && '/' !in r.value
  {
    if path == [] then Failure(Argument)
    else Success(RemoveChar(RemoveChar(ReplaceString(dir, path, ""), '\\'), '/'))
  }

  /** A child `path + sep + name` is reduced to `name` when the parent does
      not occur again after its own end. */
  lemma SanitizeChild(path: string, sep: char, name: string)
    requires path != [] && (sep == '/' || sep == '\\')
    requires '/' !in name && '\\' !in name
    requires !Occurs(path, [sep] + name)
    ensures SanitizePath(path + [sep] + name, path) == Success(name)
  {
    var dir := path + [sep] + name;
    assert dir[..|path|] == path;
    assert dir[|path|..] == [sep] + name;
    ReplaceStringAbsent([sep] + name, path, "");
    assert ReplaceString(dir, path, "") == [sep] + name;
    if sep == '\\' {
      assert RemoveChar([sep] + name, '\\') == RemoveChar(name, '\\');
    } else {
      assert RemoveChar([sep] + name, '/') == RemoveChar(name, '/');
    }
  }

  /** A child whose name repeats its parent loses its name as well. */
  lemma SanitizeRepeatedName()
    ensures SanitizePath("/usr/usr", "/usr") == Success("")
  {
    assert "/usr/usr"[..4] == "/usr";
    assert "/usr/usr"[4..][..4] == "/usr";
    assert "/usr/usr"[4..][4..] == "";
  }

  /** `s.Split(sep).Last()`: what follows the last separator. */
  function LastSegment(s: string, sep: char): (r: string)
    ensures sep !in r
    ensures |r| <= |s| && r == s[|s| - |r|..]
    ensures |r| < |s| ==> s[|s| - |r| - 1] == sep
  {
    if s == [] then []
    else if s[|s| - 1] == sep then []
    else LastSegment(s[..|s| - 1], sep) + [s[|s| - 1]]
  }

  /** A child directory passes the filter when its lower-cased last segment starts with the needle. */
  predicate MatchesNeedle(dir: string, needle: string, sep: char)
  {
    StartsWith(LowerString(LastSegment(dir, sep)), needle)
  }

  /** The `Where` filter over the child directories. */
  function FilterByNeedle(dirs: seq<string>, needle: string, sep: char): seq<string>
  {
    if dirs == [] then []
    else if MatchesNeedle(dirs[0], needle, sep) then [dirs[0]] + FilterByNeedle(dirs[1..], needle, sep)
    else FilterByNeedle(dirs[1..], needle, sep)
  }

  /** The filter keeps exactly the directories that match the needle. */
  lemma {:induction false} FilterKeepsMatches(dirs: seq<string>, needle: string, sep: char)
    ensures forall d :: d in FilterByNeedle(dirs, needle, sep) <==> d in dirs && MatchesNeedle(d, needle, sep)
  {
    if dirs != [] {
      FilterKeepsMatches(dirs[1..], needle, sep);
      var rest := FilterByNeedle(dirs[1..], needle, sep);
      forall d
        ensures d in FilterByNeedle(dirs, needle, sep) <==> d in dirs && MatchesNeedle(d, needle, sep)
      {
        assert d in dirs <==> d == dirs[0] || d in dirs[1..];
      }
    }
  }

  /** The filter keeps the lister's order. */
  lemma {:induction false} FilterKeepsOrder(dirs: seq<string>, needle: string, sep: char)
    ensures IsSubsequence(FilterByNeedle(dirs, needle, sep), dirs)
  {
    if dirs != [] {
      FilterKeepsOrder(dirs[1..], needle, sep);
      var rest := FilterByNeedle(dirs[1..], needle, sep);
      if MatchesNeedle(dirs[0], needle, sep) {
        assert ([dirs[0]] + rest)[1..] == rest;
      } else {
        assert rest == [] || rest[0] != dirs[0] by {
          if rest != [] {
            FilterKeepsMatches(dirs[1..], needle, sep);
            assert rest[0] in rest;
          }
        }
      }
    }
  }

  /** What the filter keeps of one directory. */
  function Kept(d: string, needle: string, sep: char): seq<string>
  {
    if MatchesNeedle(d, needle, sep) then [d] else []
  }

  /** The filter on a non-empty list: the first entry is decided, then the rest. */
  lemma FilterFirst(a: seq<string>, b: seq<string>, needle: string, sep: char)
    requires a != []
    ensures FilterByNeedle(a, needle, sep) == Kept(a[0], needle, sep) + FilterByNeedle(a[1..], needle, sep)
    ensures FilterByNeedle(a + b, needle, sep) == Kept(a[0], needle, sep) + FilterByNeedle(a[1..] + b, needle, sep)
  {
    assert (a + b)[0] == a[0] && (a + b)[1..] == a[1..] + b;
  }

  lemma ConcatAssociates<T>(k: seq<T>, x: seq<T>, y: seq<T>)
    ensures k + (x + y) == (k + x) + y
  {
  }

  /** Filtering two lists one after the other is filtering their concatenation,
      so every entry, repeated or not, is decided on its own. */
  lemma {:induction false} FilterDistributes(a: seq<string>, b: seq<string>, needle: string, sep: char)
    ensures FilterByNeedle(a + b, needle, sep) == FilterByNeedle(a, needle, sep) + FilterByNeedle(b, needle, sep)
    decreases |a|
  {
    if a == [] {
      assert a + b == b;
    } else {
      var k, x, y := Kept(a[0], needle, sep), FilterByNeedle(a[1..], needle, sep), FilterByNeedle(b, needle, sep);
      assert FilterByNeedle(a + b, needle, sep) == k + (x + y) by {
        FilterFirst(a, b, needle, sep);
        FilterDistributes(a[1..], b, needle, sep);
      }
      assert FilterByNeedle(a, needle, sep) == k + x by {
        FilterFirst(a, b, needle, sep);
      }
      ConcatAssociates(k, x, y);
    }
  }

  /** `/c/tmp` converts to `C:\tmp`. */
  lemma ToWinDirTmp()
    ensures ToWinDir("/c/tmp") == "C:\\tmp"
  {
    assert "/c/tmp"[1] == 'c' && "/c/tmp"[2..] == "/tmp";
    assert [ToUpper('c')] + ":" + "/tmp" == "C:/tmp";
  }

  /** `C:\tmp` converts to `/c/tmp`. */
  lemma ToUnixDirTmp()
    ensures ToUnixDir("C:\\tmp") == Success("/c/tmp")
  {
    assert ['/', 'c'] + "/tmp" == "/c/tmp";
    ToWinDirTmp();
    WinUnixRoundTrip('c', "/tmp");
  }
}
