/** The keystroke loop of PathHint.ReadLine (PathHinter/PathHint.cs): the typed
    input, the pending suggestion, the hint list, the browsing index and the
    line that Enter returns, updated once per key. The console is replaced by a
    finite sequence of keys; the directory lister, Directory.Exists, the input
    regular expression and the platform are fields of an environment. */
module Completion {
  import opened DotNet
  import opened PathHint
  import opened Navigation

  /** The keys ReadLine distinguishes; every other key reaches it as its KeyChar. */
  datatype Key =
    | Backspace
    | Tab
    | UpArrow
    | DownArrow
    | LeftArrow
    | RightArrow
    | Enter
    | Other(keyChar: char)

  /** ConsoleKeyInfo.KeyChar. Only Tab and Other can reach the typing branch. */
  function KeyChar(k: Key): char
  {
    match k
    case Tab => '\t'
    case Other(c) => c
    case Backspace => '\U{8}'
    case Enter => '\r'
    case _ => '\0'
  }

  /** What ReadLine consults outside its own locals. */
  datatype Env = Env(
    style: Style,                                           // the `style` argument
    accepts: char -> bool,                                   // Regex.IsMatch(c.ToString(), inputRegex)
    displayFolders: (string, Style) -> Result<Option<seq<string>>, Exception>,  // DisplayFolders, which may throw
    directoryExists: string -> bool,                         // Directory.Exists
    isWinPlatform: bool)                                     // Environment.OSVersion.Platform == Win32NT

  /** The locals of ReadLine. `None` stands for null. */
  datatype State = State(
    userInput: string,
    suggestion: Option<string>,
    hintSource: Option<seq<string>>,
    suggestionIndex: int,
    readLine: string)

  /** The locals before the first key. */
  function Initial(): State
  {
    State("", Some(""), None, 0, "")
  }

  /** string.IsNullOrEmpty. */
  predicate IsNullOrEmpty(s: Option<string>)
  {
    s.None? || s.value == ""
  }

  /** UpdateHints: list the hints again (always in Linux style) and reset the
      index; an exception of the lister propagates. */
  function UpdateHints(userInput: string, env: Env): Result<(Option<seq<string>>, int), Exception>
  {
    match env.displayFolders(userInput, Linux)
    case Failure(e) => Failure(e)
    case Success(hints) => Success((hints, 0))
  }

  /** The path MustResetSuggestions asks Directory.Exists about: a
      Linux-style suggestion is converted first on a Windows host. */
  function HostPath(suggestion: string, isWinPlatform: bool): string
  {
    if GetStyle(suggestion) != Windows && isWinPlatform then ToWinDir(suggestion) else suggestion
  }

  /** MustResetSuggestions on its two `ref` arguments: a suggestion naming an
      existing directory is cleared, together with the index. */
  function MustResetSuggestions(suggestion: string, suggestionIndex: int, env: Env): (r: (string, int))
    ensures env.directoryExists(HostPath(suggestion, env.isWinPlatform)) ==> r == ("", 0)
    ensures !env.directoryExists(HostPath(suggestion, env.isWinPlatform)) ==> r == (suggestion, suggestionIndex)
  {
    if env.directoryExists(HostPath(suggestion, env.isWinPlatform)) then ("", 0)
    else (suggestion, suggestionIndex)
  }

  /** `item` is strictly longer than `userInput` and starts with it. */
  predicate Extends(item: string, userInput: string)
  {
    |item| > |userInput| && item[..|userInput|] == userInput
  }

  /** `FirstOrDefault` over the hints: the first one that extends the input. */
  function FirstMatch(hints: seq<string>, userInput: string): (r: Option<string>)
    ensures r.None? <==> forall k :: 0 <= k < |hints| ==> !Extends(hints[k], userInput)
    ensures r.Some? ==> exists k :: 0 <= k < |hints| && hints[k] == r.value && Extends(r.value, userInput) &&
                                    forall j :: 0 <= j < k ==> !Extends(hints[j], userInput)
  {
    if hints == [] then None
    else if Extends(hints[0], userInput) then Some(hints[0])
    else
      var r := FirstMatch(hints[1..], userInput);
      assert forall k :: 0 < k < |hints| ==> hints[k] == hints[1..][k - 1];
      r
  }

  /** Lines 66-109: the effect of one key other than Enter, before the
      suggestion and the returned line are brought up to date. */
  function HandleKey(s: State, k: Key, env: Env): Result<State, Exception>
    requires k != Enter
  {
    if k == Backspace then
      var userInput := SimulateBackspace(s.userInput);
      (match UpdateHints(userInput, env)
       case Failure(e) => Failure(e)
       case Success((hints, index)) =>
         Success(s.(userInput := userInput, hintSource := hints, suggestionIndex := index)))
    else if k == Tab && StartsWith(s.userInput, "/") then
      var suggestionIsEmpty := IsNullOrEmpty(s.suggestion);
      var listed: Result<Option<seq<string>>, Exception> :=
        if suggestionIsEmpty then env.displayFolders(s.userInput, env.style) else Success(s.hintSource);
      (match listed
       case Failure(e) => Failure(e)
       case Success(hints) =>
         var userInput :=
           if hints.Some? && |hints.value| > 1 then (if s.suggestion.Some? then s.suggestion.value else s.userInput)
           else if hints.Some? && |hints.value| == 1 then hints.value[0]
           else s.userInput;
         var (suggestion, index) :=
           if !suggestionIsEmpty then
             var (sg, ix) := MustResetSuggestions(s.suggestion.value, s.suggestionIndex, env);
             (Some(sg), ix)
           else (s.suggestion, s.suggestionIndex);
         Success(s.(userInput := userInput, hintSource := hints, suggestion := suggestion, suggestionIndex := index)))
    else if k == UpArrow || k == DownArrow then
      var nextIndex := Navigated(s.hintSource, s.suggestionIndex, k == UpArrow);
      match s.hintSource
      case None => Success(s.(suggestionIndex := nextIndex, suggestion := None))
      case Some(hints) =>
        if 0 <= nextIndex < |hints| then Success(s.(suggestionIndex := nextIndex, suggestion := Some(hints[nextIndex])))
        else Failure(IndexOutOfRange)
    else if k == LeftArrow || k == RightArrow then
      var edited: Result<string, Exception> :=
        if k == LeftArrow then Success(SimulateBackspace(s.userInput))
        else if s.suggestion.None? then Failure(NullReference)
        else if |s.suggestion.value| <= |s.userInput| then Failure(IndexOutOfRange)
        else Success(s.userInput + [s.suggestion.value[|s.userInput|]]);
      (match edited
       case Failure(e) => Failure(e)
       case Success(userInput) =>
         match UpdateHints(userInput, env)
         case Failure(e) => Failure(e)
         case Success((hints, index)) =>
           Success(s.(userInput := userInput, hintSource := hints, suggestionIndex := index)))
    else if env.accepts(KeyChar(k)) then
      Success(s.(userInput := s.userInput + [KeyChar(k)]))
    else
      Success(s)
  }

  /** Lines 111-113: an empty or null suggestion is replaced by the first hint
      that extends the input, or by null. */
  function AutoSuggest(s: State): (t: State)
    ensures t.(suggestion := s.suggestion) == s
    ensures !IsNullOrEmpty(s.suggestion) ==> t.suggestion == s.suggestion
    ensures IsNullOrEmpty(s.suggestion) ==>
              (t.suggestion.None? <==>
                 s.hintSource.None? || forall k :: 0 <= k < |s.hintSource.value| ==> !Extends(s.hintSource.value[k], s.userInput))
    ensures IsNullOrEmpty(s.suggestion) && t.suggestion.Some? ==>
              s.hintSource.Some? &&
              exists k :: 0 <= k < |s.hintSource.value| && s.hintSource.value[k] == t.suggestion.value &&
                          Extends(t.suggestion.value, s.userInput) &&
                          forall j :: 0 <= j < k ==> !Extends(s.hintSource.value[j], s.userInput)
  {
    if IsNullOrEmpty(s.suggestion) then
      s.(suggestion := if s.hintSource.Some? then FirstMatch(s.hintSource.value, s.userInput) else None)
    else s
  }

  /** Line 115: the line Enter would return, given the one before this key. */
  function NextReadLine(s: State, previous: string): string
  {
    if IsNullOrEmpty(s.suggestion) || |s.userInput| > |previous| then s.userInput else s.suggestion.value
  }

  /** Line 126: the dimmed text written after the input; Substring throws
      when the line is shorter than the input. */
  function HintText(s: State): (r: Result<string, Exception>)
    ensures r.Failure? <==> s.userInput != [] && |s.readLine| < |s.userInput|
    ensures r.Success? && s.userInput != [] ==> s.readLine == s.readLine[..|s.userInput|] + r.value
    ensures s.userInput == [] ==> r == Success("")
  {
    if s.userInput != [] then Substring(s.readLine, |s.userInput|, |s.readLine| - |s.userInput|)
    else Success("")
  }

  /** One iteration of the loop body for a key other than Enter. */
  function Step(s: State, k: Key, env: Env): (r: Result<State, Exception>)
    requires k != Enter
  {
    match HandleKey(s, k, env)
    case Failure(e) => Failure(e)
    case Success(handled) =>
      var suggested := AutoSuggest(handled);
      var t := suggested.(readLine := NextReadLine(suggested, s.readLine));
      match HintText(t)
      case Failure(e) => Failure(e)
      case Success(_) => Success(t)
  }

  /** Line 133: what Enter returns. */
  function Returned(s: State): string
  {
    if s.userInput != [] then s.readLine else ""
  }

  /** How a finite stream of keys ends: Enter was read, a line threw, or the
      stream ran out while ReadLine was still waiting for a key. */
  datatype Outcome =
    | Finished(line: string, last: State)
    | Threw(error: Exception)
    | Waiting(state: State)

  /** The loop run on `keys` from `s`. */
  function Run(s: State, keys: seq<Key>, env: Env): Outcome
    decreases |keys|
  {
    if keys == [] then Waiting(s)
    else if keys[0] == Enter then Finished(Returned(s), s)
    else
      match Step(s, keys[0], env)
      case Failure(e) => Threw(e)
      case Success(t) => Run(t, keys[1..], env)
  }

  /** ReadLine, key by key, on the same locals as the source. */
  method ReadLine(keys: seq<Key>, env: Env) returns (outcome: Outcome)
    ensures outcome == Run(Initial(), keys, env)
  {
    var suggestion: Option<string> := Some("");
    var userInput := "";
    var readLine := "";
    var hintSource: Option<seq<string>> := None;
    var suggestionIndex := 0;
    var n := 0;
    while n < |keys|
      invariant 0 <= n <= |keys|
      invariant Run(Initial(), keys, env) ==
                Run(State(userInput, suggestion, hintSource, suggestionIndex, readLine), keys[n..], env)
    {
      var before := State(userInput, suggestion, hintSource, suggestionIndex, readLine);
      var input := keys[n];
      assert keys[n..][0] == input && keys[n..][1..] == keys[n + 1..];
      if input == Enter {
        return Finished(Returned(before), before);
      }
      var next := Iteration(before, input, env);
      if next.Failure? {
        return Threw(next.error);
      }
      RunStep(before, keys[n..], env, next.value);
      userInput, suggestion, hintSource := next.value.userInput, next.value.suggestion, next.value.hintSource;
      suggestionIndex, readLine := next.value.suggestionIndex, next.value.readLine;
      n := n + 1;
    }
    outcome := Waiting(State(userInput, suggestion, hintSource, suggestionIndex, readLine));
  }

  /** The loop body for a key other than Enter (lines 66-126), on the locals held in `s`. */
  method Iteration(s: State, input: Key, env: Env) returns (r: Result<State, Exception>)
    requires input != Enter
    ensures r == Step(s, input, env)
  {
    var handled := ApplyKey(s, input, env);
    if handled.Failure? {
      return Failure(handled.error);
    }
    var userInput, suggestion, hintSource := handled.value.userInput, handled.value.suggestion, handled.value.hintSource;
    if IsNullOrEmpty(suggestion) {
      suggestion := if hintSource.Some? then FirstMatch(hintSource.value, userInput) else None;
    }
    var readLine := if IsNullOrEmpty(suggestion) || |userInput| > |s.readLine| then userInput else suggestion.value;
    if userInput != [] && |readLine| < |userInput| {
      return Failure(ArgumentOutOfRange);
    }
    r := Success(State(userInput, suggestion, hintSource, handled.value.suggestionIndex, readLine));
  }

  /** The branches of the loop body (lines 66-109) on the locals held in `s`. */
  method ApplyKey(s: State, input: Key, env: Env) returns (r: Result<State, Exception>)
    requires input != Enter
    ensures r == HandleKey(s, input, env)
  {
    var userInput, suggestion, hintSource, suggestionIndex := s.userInput, s.suggestion, s.hintSource, s.suggestionIndex;
    if input == Backspace {
      userInput := SimulateBackspace(userInput);
      var updated := UpdateHints(userInput, env);
      if updated.Failure? {
        return Failure(updated.error);
      }
      hintSource, suggestionIndex := updated.value.0, updated.value.1;
    } else if input == Tab && StartsWith(userInput, "/") {
      var suggestionIsEmpty := IsNullOrEmpty(suggestion);
      if suggestionIsEmpty {
        var listed := env.displayFolders(userInput, env.style);
        if listed.Failure? {
          return Failure(listed.error);
        }
        hintSource := listed.value;
      }
      if hintSource.Some? && |hintSource.value| > 1 {
        userInput := if suggestion.Some? then suggestion.value else userInput;
      } else if hintSource.Some? && |hintSource.value| == 1 {
        userInput := hintSource.value[0];
      }
      if !suggestionIsEmpty {
        var reset := MustResetSuggestions(suggestion.value, suggestionIndex, env);
        suggestion, suggestionIndex := Some(reset.0), reset.1;
      }
    } else if input == UpArrow || input == DownArrow {
      var isUp := input == UpArrow;
      var nextIndex;
      nextIndex, suggestionIndex := NavigateBounds(hintSource, suggestionIndex, isUp);
      if hintSource.None? {
        suggestion := None;
      } else if 0 <= nextIndex < |hintSource.value| {
        suggestion := Some(hintSource.value[nextIndex]);
      } else {
        return Failure(IndexOutOfRange);
      }
    } else if input == LeftArrow || input == RightArrow {
      if input == LeftArrow {
        userInput := SimulateBackspace(userInput);
      } else if suggestion.None? {
        return Failure(NullReference);
      } else if |suggestion.value| <= |userInput| {
        return Failure(IndexOutOfRange);
      } else {
        userInput := userInput + [suggestion.value[|userInput|]];
      }
      var updated := UpdateHints(userInput, env);
      if updated.Failure? {
        return Failure(updated.error);
      }
      hintSource, suggestionIndex := updated.value.0, updated.value.1;
    } else if env.accepts(KeyChar(input)) {
      userInput := userInput + [KeyChar(input)];
    }
    r := Success(s.(userInput := userInput, suggestion := suggestion, hintSource := hintSource,
                    suggestionIndex := suggestionIndex));
  }

  // Properties of single keys.

  /** Backspace and Left arrow are the same edit: the last character goes, the
      hints are listed again in Linux style and browsing restarts at 0, while
      the suggestion and the returned line stay as they were. They throw
      exactly when the lister throws, and with the lister's exception. */
  lemma ErasingKeys(s: State, env: Env)
    ensures HandleKey(s, Backspace, env) == HandleKey(s, LeftArrow, env)
    ensures HandleKey(s, Backspace, env).Success? <==> env.displayFolders(SimulateBackspace(s.userInput), Linux).Success?
    ensures HandleKey(s, Backspace, env).Failure? ==>
              HandleKey(s, Backspace, env).error == env.displayFolders(SimulateBackspace(s.userInput), Linux).error
    ensures HandleKey(s, Backspace, env).Success? ==>
              var t := HandleKey(s, Backspace, env).value;
              && (s.userInput == [] ==> t.userInput == [])
              && (s.userInput != [] ==> t.userInput + [s.userInput[|s.userInput| - 1]] == s.userInput)
              && t.hintSource == env.displayFolders(t.userInput, Linux).value
              && t.suggestionIndex == 0
              && t.suggestion == s.suggestion && t.readLine == s.readLine
  {
  }

  /** Right arrow copies the next character of the suggestion into the input.
      It throws when there is no suggestion or the suggestion is not longer
      than the input, and otherwise when listing the hints for the new input throws. */
  lemma RightArrowTakesOneCharacter(s: State, env: Env)
    ensures s.suggestion.None? ==> HandleKey(s, RightArrow, env) == Failure(NullReference)
    ensures s.suggestion.Some? && |s.suggestion.value| <= |s.userInput| ==>
              HandleKey(s, RightArrow, env) == Failure(IndexOutOfRange)
    ensures s.suggestion.Some? && |s.suggestion.value| > |s.userInput| ==>
              var listed := env.displayFolders(s.userInput + [s.suggestion.value[|s.userInput|]], Linux);
              (HandleKey(s, RightArrow, env).Success? <==> listed.Success?) &&
              (listed.Failure? ==> HandleKey(s, RightArrow, env) == Failure(listed.error))
    ensures HandleKey(s, RightArrow, env).Success? ==>
              var t := HandleKey(s, RightArrow, env).value;
              && s.suggestion.Some? && |s.suggestion.value| > |s.userInput|
              && t.userInput == s.userInput + [s.suggestion.value[|s.userInput|]]
              && t.hintSource == env.displayFolders(t.userInput, Linux).value
              && t.suggestionIndex == 0
              && t.suggestion == s.suggestion && t.readLine == s.readLine
    ensures s.suggestion.Some? && Extends(s.suggestion.value, s.userInput) &&
            env.displayFolders(s.suggestion.value[..|s.userInput| + 1], Linux).Success? ==>
              HandleKey(s, RightArrow, env).Success? &&
              HandleKey(s, RightArrow, env).value.userInput == s.suggestion.value[..|s.userInput| + 1]
  {
    if s.suggestion.Some? && Extends(s.suggestion.value, s.userInput) {
      assert s.userInput + [s.suggestion.value[|s.userInput|]] == s.suggestion.value[..|s.userInput| + 1];
    }
  }

  /** A printable key is appended exactly when the input filter accepts it;
      nothing else changes. */
  lemma TypedCharacter(s: State, c: char, env: Env)
    ensures HandleKey(s, Other(c), env).Success?
    ensures env.accepts(c) ==> HandleKey(s, Other(c), env).value == s.(userInput := s.userInput + [c])
    ensures !env.accepts(c) ==> HandleKey(s, Other(c), env).value == s
  {
  }

  /** A whole iteration for an accepted character while a suggestion is
      pending: the suggestion stays, the line becomes the input once the input
      outgrows the previous line and stays the suggestion otherwise, and the
      hint text throws when that suggestion is shorter than the input. */
  lemma TypedWithSuggestion(s: State, c: char, env: Env)
    requires env.accepts(c) && !IsNullOrEmpty(s.suggestion)
    ensures var u := s.userInput + [c];
            var line := if |u| > |s.readLine| then u else s.suggestion.value;
            Step(s, Other(c), env) ==
              if |line| < |u| then Failure(ArgumentOutOfRange)
              else Success(s.(userInput := u, readLine := line))
  {
  }

  /** A whole iteration for an accepted character with no hint list and
      nothing suggested: the suggestion becomes null and the line is the input. */
  lemma TypedWithoutHints(s: State, c: char, env: Env)
    requires env.accepts(c) && s.hintSource.None? && IsNullOrEmpty(s.suggestion)
    ensures Step(s, Other(c), env) ==
              Success(s.(userInput := s.userInput + [c], suggestion := None, readLine := s.userInput + [c]))
  {
  }

  /** Tab on an input that does not start with `/` is not completion: it is
      typed like any other character, as a tab. */
  lemma TabWithoutSlashIsTyped(s: State, env: Env)
    requires !StartsWith(s.userInput, "/")
    ensures HandleKey(s, Tab, env) == HandleKey(s, Other('\t'), env)
  {
  }

  /** Tab on a path: the hints are listed again only when there is no pending
      suggestion, and Tab throws exactly when that listing throws; a single
      hint replaces the input, several hints replace it by the suggestion; a
      pending suggestion naming an existing directory is cleared with its
      index, any other is kept. */
  lemma TabOnPath(s: State, env: Env)
    requires StartsWith(s.userInput, "/")
    ensures HandleKey(s, Tab, env).Success? <==>
              !IsNullOrEmpty(s.suggestion) || env.displayFolders(s.userInput, env.style).Success?
    ensures HandleKey(s, Tab, env).Failure? ==>
              HandleKey(s, Tab, env).error == env.displayFolders(s.userInput, env.style).error
    ensures HandleKey(s, Tab, env).Success? ==>
            var t := HandleKey(s, Tab, env).value;
            && t.hintSource == (if IsNullOrEmpty(s.suggestion) then env.displayFolders(s.userInput, env.style).value else s.hintSource)
            && (t.hintSource.Some? && |t.hintSource.value| == 1 ==> t.userInput == t.hintSource.value[0])
            && (t.hintSource.Some? && |t.hintSource.value| > 1 ==>
                  t.userInput == if s.suggestion.Some? then s.suggestion.value else s.userInput)
            && (t.hintSource.None? || |t.hintSource.value| == 0 ==> t.userInput == s.userInput)
            && (IsNullOrEmpty(s.suggestion) ==> t.suggestion == s.suggestion && t.suggestionIndex == s.suggestionIndex)
            && (!IsNullOrEmpty(s.suggestion) ==>
                  ((t.suggestion == Some("") && t.suggestionIndex == 0) <==>
                     env.directoryExists(HostPath(s.suggestion.value, env.isWinPlatform))))
            && (!IsNullOrEmpty(s.suggestion) && !env.directoryExists(HostPath(s.suggestion.value, env.isWinPlatform)) ==>
                  t.suggestion == s.suggestion && t.suggestionIndex == s.suggestionIndex)
            && t.readLine == s.readLine
  {
  }

  /** Unless the suggestion is the empty string, which no key leaves behind,
      Tab on a path can only empty the input by taking a lone empty hint. */
  lemma TabKeepsInput(s: State, env: Env)
    requires StartsWith(s.userInput, "/") && s.suggestion != Some("")
    ensures HandleKey(s, Tab, env).Success? ==>
              var t := HandleKey(s, Tab, env).value;
              t.userInput == [] ==> t.hintSource == Some([""])
  {
    TabOnPath(s, env);
    if HandleKey(s, Tab, env).Success? {
      var t := HandleKey(s, Tab, env).value;
      if t.userInput == [] {
        assert |t.hintSource.value| == 1 && t.hintSource.value[0] == "";
        assert t.hintSource.value == [""];
      }
    }
  }

  /** Up and Down with no hint list clear the suggestion; with an empty list
      they throw; from an index inside a list they select the hint at the new
      index, which is again inside the list. The input never changes. */
  lemma BrowseKeys(s: State, k: Key, env: Env)
    requires k == UpArrow || k == DownArrow
    ensures s.hintSource.None? ==>
              HandleKey(s, k, env) == Success(s.(suggestion := None))
    ensures s.hintSource == Some([]) ==> HandleKey(s, k, env) == Failure(IndexOutOfRange)
    ensures s.hintSource.Some? && 0 <= s.suggestionIndex < |s.hintSource.value| ==>
              HandleKey(s, k, env).Success? &&
              var t := HandleKey(s, k, env).value;
              && 0 <= t.suggestionIndex < |s.hintSource.value|
              && t.suggestionIndex == Navigated(s.hintSource, s.suggestionIndex, k == UpArrow)
              && t.suggestion == Some(s.hintSource.value[t.suggestionIndex])
              && t.userInput == s.userInput && t.hintSource == s.hintSource && t.readLine == s.readLine
  {
    if s.hintSource.Some? && 0 <= s.suggestionIndex < |s.hintSource.value| && |s.hintSource.value| >= 2 {
      NavigatedInRange(s.hintSource.value, s.suggestionIndex, k == UpArrow);
    }
  }

  // Properties of whole iterations and of the loop.

  /** The returned line is the input or the suggestion, and is never shorter
      than a non-empty input. */
  predicate Settled(s: State)
  {
    && (s.readLine == s.userInput || (s.suggestion.Some? && s.readLine == s.suggestion.value))
    && (s.userInput != [] ==> |s.readLine| >= |s.userInput|)
  }

  /** After a completed iteration the line is settled, and the suggestion is
      either null or a hint strictly longer than the empty string. */
  lemma StepSettles(s: State, k: Key, env: Env)
    requires k != Enter && Step(s, k, env).Success?
    ensures Settled(Step(s, k, env).value)
    ensures Step(s, k, env).value.suggestion != Some("")
  {
    var handled := HandleKey(s, k, env).value;
    var suggested := AutoSuggest(handled);
    if IsNullOrEmpty(handled.suggestion) && suggested.suggestion.Some? {
      assert Extends(suggested.suggestion.value, handled.userInput);
    }
  }

  /** What a run ends in: a settled state, and on Enter the line that state returns. */
  predicate Ends(o: Outcome)
  {
    match o
    case Finished(line, last) => Settled(last) && line == Returned(last)
    case Waiting(state) => Settled(state)
    case Threw(_) => true
  }

  lemma {:induction false} RunSettles(s: State, keys: seq<Key>, env: Env)
    requires Settled(s)
    ensures Ends(Run(s, keys, env))
    decreases |keys|
  {
    if keys != [] && keys[0] != Enter && Step(s, keys[0], env).Success? {
      StepSettles(s, keys[0], env);
      RunSettles(Step(s, keys[0], env).value, keys[1..], env);
    }
  }

  /** The line ReadLine returns: empty exactly when the input is empty, and
      otherwise the input or the suggestion, at least as long as the input. */
  lemma ReadLineReturns(keys: seq<Key>, env: Env)
    ensures Run(Initial(), keys, env).Finished? ==>
              var line, last := Run(Initial(), keys, env).line, Run(Initial(), keys, env).last;
              && (line == [] <==> last.userInput == [])
              && (line != [] ==> |line| >= |last.userInput| &&
                                 (line == last.userInput || (last.suggestion.Some? && line == last.suggestion.value)))
  {
    RunSettles(Initial(), keys, env);
  }

  /** `n` presses of the Right arrow. */
  function Rights(n: nat): seq<Key>
  {
    seq(n, _ => RightArrow)
  }

  /** With the suggestion on the line, pressing Right until the input has
      caught up with it and then Enter returns the suggestion. */
  lemma {:induction false} AcceptSuggestion(s: State, env: Env, n: nat)
    requires s.suggestion.Some? && s.readLine == s.suggestion.value
    requires |s.userInput| + n == |s.suggestion.value| && s.userInput == s.suggestion.value[..|s.userInput|]
    requires forall k :: |s.userInput| < k <= |s.suggestion.value| ==> env.displayFolders(s.suggestion.value[..k], Linux).Success?
    ensures Run(s, Rights(n) + [Enter], env).Finished?
    ensures Run(s, Rights(n) + [Enter], env).line == s.suggestion.value
    decreases n
  {
    var keys := Rights(n) + [Enter];
    if n > 0 {
      var g := s.suggestion.value;
      var u := s.userInput + [g[|s.userInput|]];
      assert u == g[..|u|];
      assert env.displayFolders(g[..|u|], Linux).Success?;
      var t := s.(userInput := u, hintSource := env.displayFolders(u, Linux).value, suggestionIndex := 0);
      assert Step(s, RightArrow, env) == Success(t);
      assert keys[0] == RightArrow && keys[1..] == Rights(n - 1) + [Enter];
      AcceptSuggestion(t, env, n - 1);
    }
  }

  // Runs on concrete key sequences.

  /** A completed iteration moves the run on to the next key. */
  lemma RunStep(s: State, keys: seq<Key>, env: Env, t: State)
    requires keys != [] && keys[0] != Enter && Step(s, keys[0], env) == Success(t)
    ensures Run(s, keys, env) == Run(t, keys[1..], env)
  {
  }

  /** A lister for the root with `/usr` and `/user` in it: the children of `/`
      whose name starts with the typed needle are the two, and `/usr` itself
      holds `/usr/bin`. Every character is accepted and no suggestion names an
      existing directory. */
  function UsrEnv(): Env
  {
    Env(Linux, c => true,
        (p, st) => if p == "/usr" then Success(Some(["/usr/bin"])) else Success(Some(["/usr", "/user"])),
        d => false, false)
  }

  lemma UsrTypeSlash()
    ensures Step(Initial(), Other('/'), UsrEnv()) == Success(State("/", None, None, 0, "/"))
  {
    TypedWithoutHints(Initial(), '/', UsrEnv());
    assert "" + ['/'] == "/";
  }

  lemma UsrTypeU()
    ensures Step(State("/", None, None, 0, "/"), Other('u'), UsrEnv()) == Success(State("/u", None, None, 0, "/u"))
  {
    TypedWithoutHints(State("/", None, None, 0, "/"), 'u', UsrEnv());
    assert "/" + ['u'] == "/u";
  }

  lemma UsrTypeS()
    ensures Step(State("/u", None, None, 0, "/u"), Other('s'), UsrEnv()) == Success(State("/us", None, None, 0, "/us"))
  {
    TypedWithoutHints(State("/u", None, None, 0, "/u"), 's', UsrEnv());
    assert "/u" + ['s'] == "/us";
  }

  /** Tab on `/us` with nothing suggested lists `/usr` and `/user`, keeps the
      input and suggests the first hint that extends it, `/usr`, which becomes the line. */
  lemma UsrTab()
    ensures Step(State("/us", None, None, 0, "/us"), Tab, UsrEnv()) ==
              Success(State("/us", Some("/usr"), Some(["/usr", "/user"]), 0, "/usr"))
  {
    assert FirstMatch(["/usr", "/user"], "/us") == Some("/usr");
  }

  /** The start of both `/usr` runs: `/us` typed, then Tab. */
  lemma UsrPrefix(keys: seq<Key>)
    requires |keys| >= 4 && keys[..4] == [Other('/'), Other('u'), Other('s'), Tab]
    ensures Run(Initial(), keys, UsrEnv()) ==
              Run(State("/us", Some("/usr"), Some(["/usr", "/user"]), 0, "/usr"), keys[4..], UsrEnv())
  {
    var env := UsrEnv();
    assert keys[0] == Other('/') && keys[1] == Other('u') && keys[2] == Other('s') && keys[3] == Tab by {
      assert keys[0] == keys[..4][0] && keys[1] == keys[..4][1] && keys[2] == keys[..4][2] && keys[3] == keys[..4][3];
    }
    UsrTypeSlash();
    RunStep(Initial(), keys, env, State("/", None, None, 0, "/"));
    UsrTypeU();
    assert keys[1..][1..] == keys[2..];
    RunStep(State("/", None, None, 0, "/"), keys[1..], env, State("/u", None, None, 0, "/u"));
    UsrTypeS();
    assert keys[2..][1..] == keys[3..];
    RunStep(State("/u", None, None, 0, "/u"), keys[2..], env, State("/us", None, None, 0, "/us"));
    UsrTab();
    assert keys[3..][1..] == keys[4..];
    RunStep(State("/us", None, None, 0, "/us"), keys[3..], env, State("/us", Some("/usr"), Some(["/usr", "/user"]), 0, "/usr"));
  }

  lemma UsrRight()
    ensures Step(State("/us", Some("/usr"), Some(["/usr", "/user"]), 0, "/usr"), RightArrow, UsrEnv()) ==
              Success(State("/usr", Some("/usr"), Some(["/usr/bin"]), 0, "/usr"))
  {
    assert "/us" + ["/usr"[3]] == "/usr";
  }

  /** Typing `/us` and pressing Tab suggests `/usr`; one Right arrow
      completes the input to `/usr`, and Enter returns it. */
  lemma CompleteUsr()
    ensures Run(Initial(), [Other('/'), Other('u'), Other('s'), Tab, RightArrow, Enter], UsrEnv()) ==
              Finished("/usr", State("/usr", Some("/usr"), Some(["/usr/bin"]), 0, "/usr"))
  {
    var keys := [Other('/'), Other('u'), Other('s'), Tab, RightArrow, Enter];
    assert keys[..4] == [Other('/'), Other('u'), Other('s'), Tab];
    UsrPrefix(keys);
    assert keys[4..] == [RightArrow, Enter];
    UsrRight();
    RunStep(State("/us", Some("/usr"), Some(["/usr", "/user"]), 0, "/usr"), [RightArrow, Enter], UsrEnv(),
            State("/usr", Some("/usr"), Some(["/usr/bin"]), 0, "/usr"));
    assert [RightArrow, Enter][1..] == [Enter];
  }

  lemma UsrErase()
    ensures Step(State("/us", Some("/usr"), Some(["/usr", "/user"]), 0, "/usr"), Backspace, UsrEnv()) ==
              Success(State("/u", Some("/usr"), Some(["/usr", "/user"]), 0, "/usr"))
  {
    assert SimulateBackspace("/us") == "/u";
  }

  lemma UsrTypeX()
    ensures Step(State("/u", Some("/usr"), Some(["/usr", "/user"]), 0, "/usr"), Other('x'), UsrEnv()) ==
              Success(State("/ux", Some("/usr"), Some(["/usr", "/user"]), 0, "/usr"))
  {
    TypedWithSuggestion(State("/u", Some("/usr"), Some(["/usr", "/user"]), 0, "/usr"), 'x', UsrEnv());
    assert "/u" + ['x'] == "/ux";
  }

  /** The suggestion outlives the input it was made for: after Tab suggests
      `/usr` for `/us`, erasing to `/u` and typing `x` still returns `/usr`. */
  lemma StaleSuggestionReturned()
    ensures Run(Initial(), [Other('/'), Other('u'), Other('s'), Tab, Backspace, Other('x'), Enter], UsrEnv()) ==
              Finished("/usr", State("/ux", Some("/usr"), Some(["/usr", "/user"]), 0, "/usr"))
  {
    var keys := [Other('/'), Other('u'), Other('s'), Tab, Backspace, Other('x'), Enter];
    assert keys[..4] == [Other('/'), Other('u'), Other('s'), Tab];
    UsrPrefix(keys);
    assert keys[4..] == [Backspace, Other('x'), Enter];
    UsrErase();
    RunStep(State("/us", Some("/usr"), Some(["/usr", "/user"]), 0, "/usr"), [Backspace, Other('x'), Enter], UsrEnv(),
            State("/u", Some("/usr"), Some(["/usr", "/user"]), 0, "/usr"));
    assert [Backspace, Other('x'), Enter][1..] == [Other('x'), Enter];
    UsrTypeX();
    RunStep(State("/u", Some("/usr"), Some(["/usr", "/user"]), 0, "/usr"), [Other('x'), Enter], UsrEnv(),
            State("/ux", Some("/usr"), Some(["/usr", "/user"]), 0, "/usr"));
    assert [Other('x'), Enter][1..] == [Enter];
  }

  /** A lister that offers `/` and `/abc` for every path. The run below asks
      it only about "", where the list stands for the drives (mount points)
      the lister shows for an empty path: `/` and a mount point `/abc`. */
  function ShortLongEnv(): Env
  {
    Env(Linux, c => true, (p, st) => Success(Some(["/", "/abc"])), d => false, false)
  }

  /** Backspace on the empty input lists the drives `/` and `/abc` and suggests `/`. */
  lemma ShortLongErase()
    ensures Step(Initial(), Backspace, ShortLongEnv()) == Success(State("", Some("/"), Some(["/", "/abc"]), 0, "/"))
  {
    assert FirstMatch(["/", "/abc"], "") == Some("/");
  }

  lemma ShortLongTypeSlash()
    ensures Step(State("", Some("/"), Some(["/", "/abc"]), 0, "/"), Other('/'), ShortLongEnv()) ==
              Success(State("/", Some("/"), Some(["/", "/abc"]), 0, "/"))
  {
    TypedWithSuggestion(State("", Some("/"), Some(["/", "/abc"]), 0, "/"), '/', ShortLongEnv());
    assert "" + ['/'] == "/";
  }

  /** Typing past the suggestion makes the line the input. */
  lemma ShortLongTypeA()
    ensures Step(State("/", Some("/"), Some(["/", "/abc"]), 0, "/"), Other('a'), ShortLongEnv()) ==
              Success(State("/a", Some("/"), Some(["/", "/abc"]), 0, "/a"))
  {
    TypedWithSuggestion(State("/", Some("/"), Some(["/", "/abc"]), 0, "/"), 'a', ShortLongEnv());
    assert "/" + ['a'] == "/a";
  }

  /** Down selects the longer hint, which becomes the line. */
  lemma ShortLongDown()
    ensures Step(State("/a", Some("/"), Some(["/", "/abc"]), 0, "/a"), DownArrow, ShortLongEnv()) ==
              Success(State("/a", Some("/abc"), Some(["/", "/abc"]), 1, "/abc"))
  {
  }

  /** Up selects `/` again; being shorter than the input `/a`, it makes the hint text throw. */
  lemma ShortLongUp()
    ensures Step(State("/a", Some("/abc"), Some(["/", "/abc"]), 1, "/abc"), UpArrow, ShortLongEnv()) ==
              Failure(ArgumentOutOfRange)
  {
    var s := State("/a", Some("/abc"), Some(["/", "/abc"]), 1, "/abc");
    assert HandleKey(s, UpArrow, ShortLongEnv()) == Success(s.(suggestionIndex := 0, suggestion := Some("/")));
  }

  /** The start of the throwing run: Backspace, then `/a` typed. */
  lemma ShortLongPrefix(keys: seq<Key>)
    requires |keys| >= 3 && keys[..3] == [Backspace, Other('/'), Other('a')]
    ensures Run(Initial(), keys, ShortLongEnv()) == Run(State("/a", Some("/"), Some(["/", "/abc"]), 0, "/a"), keys[3..], ShortLongEnv())
  {
    var env := ShortLongEnv();
    var hints := ["/", "/abc"];
    assert keys[0] == Backspace && keys[1] == Other('/') && keys[2] == Other('a') by {
      assert keys[0] == keys[..3][0] && keys[1] == keys[..3][1] && keys[2] == keys[..3][2];
    }
    assert keys[1..][1..] == keys[2..] && keys[2..][1..] == keys[3..];
    ShortLongErase();
    RunStep(Initial(), keys, env, State("", Some("/"), Some(hints), 0, "/"));
    ShortLongTypeSlash();
    RunStep(State("", Some("/"), Some(hints), 0, "/"), keys[1..], env, State("/", Some("/"), Some(hints), 0, "/"));
    ShortLongTypeA();
    RunStep(State("/", Some("/"), Some(hints), 0, "/"), keys[2..], env, State("/a", Some("/"), Some(hints), 0, "/a"));
  }

  /** Browsing back to a hint shorter than the input makes the hint text's
      Substring throw. */
  lemma ShortSuggestionThrows()
    ensures Run(Initial(), [Backspace, Other('/'), Other('a'), DownArrow, UpArrow], ShortLongEnv()) ==
              Threw(ArgumentOutOfRange)
  {
    var env := ShortLongEnv();
    var hints := ["/", "/abc"];
    var keys := [Backspace, Other('/'), Other('a'), DownArrow, UpArrow];
    assert keys[..3] == [Backspace, Other('/'), Other('a')];
    ShortLongPrefix(keys);
    assert keys[3..] == [DownArrow, UpArrow] && [DownArrow, UpArrow][1..] == [UpArrow];
    ShortLongDown();
    RunStep(State("/a", Some("/"), Some(hints), 0, "/a"), [DownArrow, UpArrow], env, State("/a", Some("/abc"), Some(hints), 1, "/abc"));
    ShortLongUp();
  }

  /** The keys that type `text`, one character each. */
  function Typed(text: string): (keys: seq<Key>)
    ensures |keys| == |text| && forall i :: 0 <= i < |text| ==> keys[i] == Other(text[i])
  {
    if text == [] then [] else [Other(text[0])] + Typed(text[1..])
  }

  /** Typing the first character of a text, with nothing to suggest from. */
  lemma TypedFirst(s: State, text: string, rest: seq<Key>, env: Env)
    requires text != [] && env.accepts(text[0]) && s.hintSource.None? && IsNullOrEmpty(s.suggestion)
    ensures Run(s, Typed(text) + rest, env) ==
              Run(s.(userInput := s.userInput + [text[0]], suggestion := None, readLine := s.userInput + [text[0]]),
                  Typed(text[1..]) + rest, env)
  {
    var c, keys := text[0], Typed(text) + rest;
    assert keys[0] == Other(c) && keys[1..] == Typed(text[1..]) + rest by {
      assert Typed(text) == [Other(c)] + Typed(text[1..]);
    }
    TypedWithoutHints(s, c, env);
    RunStep(s, keys, env, s.(userInput := s.userInput + [c], suggestion := None, readLine := s.userInput + [c]));
  }

  /** With every character accepted, no hint list and nothing suggested,
      typing a non-empty text appends it, leaves the suggestion null and puts
      the input on the line; the lister is not consulted. */
  lemma {:induction false} TypedText(s: State, text: string, rest: seq<Key>, env: Env)
    requires forall c :: env.accepts(c)
    requires s.hintSource.None? && IsNullOrEmpty(s.suggestion) && text != []
    ensures Run(s, Typed(text) + rest, env) ==
              Run(s.(userInput := s.userInput + text, suggestion := None, readLine := s.userInput + text), rest, env)
    decreases |text|
  {
    var t := s.(userInput := s.userInput + [text[0]], suggestion := None, readLine := s.userInput + [text[0]]);
    var u := s.(userInput := s.userInput + text, suggestion := None, readLine := s.userInput + text);
    if |text| > 1 {
      assert t.(userInput := t.userInput + text[1..], readLine := t.userInput + text[1..]) == u by {
        assert t.userInput + text[1..] == s.userInput + text;
      }
      calc {
        Run(s, Typed(text) + rest, env);
        { TypedFirst(s, text, rest, env); }
        Run(t, Typed(text[1..]) + rest, env);
        { TypedText(t, text[1..], rest, env); }
        Run(u, rest, env);
      }
    } else {
      assert t == u && Typed(text[1..]) + rest == rest by {
        assert s.userInput + [text[0]] == s.userInput + text;
      }
      TypedFirst(s, text, rest, env);
    }
  }

  /** A lister under which no child of `/` starts with `q`: the filtered
      listing is empty, not null. */
  function NoMatchEnv(): Env
  {
    Env(Linux, c => true, (p, st) => Success(Some([])), d => false, false)
  }

  /** With an empty hint list the Down arrow indexes past its end and throws:
      `/qq` typed, Backspace lists the empty children of `/` matching `q`, Down. */
  lemma BrowseEmptyListThrows()
    ensures Run(Initial(), Typed("/qq") + [Backspace, DownArrow], NoMatchEnv()) == Threw(IndexOutOfRange)
  {
    var env := NoMatchEnv();
    var typed := State("/qq", None, None, 0, "/qq");
    var s1 := State("/q", None, Some([]), 0, "/q");
    assert Run(Initial(), Typed("/qq") + [Backspace, DownArrow], env) == Run(typed, [Backspace, DownArrow], env) by {
      TypedText(Initial(), "/qq", [Backspace, DownArrow], env);
      assert "" + "/qq" == "/qq";
    }
    assert Step(typed, Backspace, env) == Success(s1) by {
      assert SimulateBackspace("/qq") == "/q";
    }
    assert Run(typed, [Backspace, DownArrow], env) == Run(s1, [DownArrow], env) by {
      RunStep(typed, [Backspace, DownArrow], env, s1);
      assert [Backspace, DownArrow][1..] == [DownArrow];
    }
    assert Step(s1, DownArrow, env) == Failure(IndexOutOfRange);
  }

  /** A lister whose directory `/n` does not exist: listing its children throws. */
  function MissingParentEnv(): Env
  {
    Env(Linux, c => true, (p, st) => Failure(DirectoryNotFound), d => false, false)
  }

  /** Backspace relists the hints, so the lister's exception ends ReadLine:
      `/n/x` typed, then Backspace asks for the children of the missing `/n`. */
  lemma ListerExceptionPropagates()
    ensures Run(Initial(), Typed("/n/x") + [Backspace, Enter], MissingParentEnv()) == Threw(DirectoryNotFound)
  {
    var env := MissingParentEnv();
    TypedText(Initial(), "/n/x", [Backspace, Enter], env);
    assert "" + "/n/x" == "/n/x";
    assert Step(State("/n/x", None, None, 0, "/n/x"), Backspace, env) == Failure(DirectoryNotFound);
  }
}
