/** The few .NET library members the PathHinter core relies on, restricted to
    ASCII where the library is Unicode-aware: nullable values, the exceptions
    the core raises or catches, case mapping, and string operations. */
module DotNet {

  /** A reference that may be null. */
  datatype Option<+T> = None | Some(value: T)

  /** A computation that either yields a value or throws. */
  datatype Result<+T, +E> = Success(value: T) | Failure(error: E)

  /** The exceptions that the modelled code can throw, or that reach it from the directory lister. */
  datatype Exception =
    | NullReference       // System.NullReferenceException
    | IndexOutOfRange     // System.IndexOutOfRangeException
    | ArgumentOutOfRange  // System.ArgumentOutOfRangeException
    | Argument            // System.ArgumentException
    | InvalidOperation    // System.InvalidOperationException
    | DirectoryNotFound   // System.IO.DirectoryNotFoundException
    | UnauthorizedAccess  // System.UnauthorizedAccessException

  predicate IsAsciiLower(c: char) { 'a' <= c <= 'z' }

  predicate IsAsciiUpper(c: char) { 'A' <= c <= 'Z' }

  /** char.IsLetter, on ASCII. */
  predicate IsLetter(c: char) { IsAsciiLower(c) || IsAsciiUpper(c) }

  /** ToUpperInvariant on one character. */
  function ToUpper(c: char): (r: char)
    ensures IsAsciiLower(c) ==> IsAsciiUpper(r) && r as int == c as int - 32
    ensures !IsAsciiLower(c) ==> r == c
  {
    if IsAsciiLower(c) then (c as int - 32) as char else c
  }

  /** ToLowerInvariant on one character. */
  function ToLower(c: char): (r: char)
    ensures IsAsciiUpper(c) ==> IsAsciiLower(r) && r as int == c as int + 32
    ensures !IsAsciiUpper(c) ==> r == c
  {
    if IsAsciiUpper(c) then (c as int + 32) as char else c
  }

  lemma LowerOfUpper(c: char)
    requires IsAsciiLower(c)
    ensures ToLower(ToUpper(c)) == c && IsLetter(ToUpper(c))
  {
  }

  /** ToLowerInvariant on a string. */
  function LowerString(s: string): (r: string)
    ensures |r| == |s|
    ensures forall i :: 0 <= i < |s| ==> r[i] == ToLower(s[i])
  {
    if s == [] then [] else [ToLower(s[0])] + LowerString(s[1..])
  }

  /** String.StartsWith with an ordinal comparison. */
  predicate StartsWith(s: string, prefix: string) { prefix <= s }

  /** String.Substring(start, length): throws unless both bounds lie in the string. */
  function Substring(s: string, start: int, length: int): (r: Result<string, Exception>)
    ensures r.Success? <==> 0 <= start && 0 <= length && start + length <= |s|
    ensures r.Failure? ==> r.error == ArgumentOutOfRange
    ensures r.Success? ==> |r.value| == length && s == s[..start] + r.value + s[start + length..]
  {
    if 0 <= start && 0 <= length && start + length <= |s| then Success(s[start..start + length])
    else Failure(ArgumentOutOfRange)
  }

  /** String.Replace(char, char), also String.Replace of a one-character string by another. */
  function ReplaceChar(s: string, from: char, to: char): (r: string)
    ensures |r| == |s|
    ensures forall i :: 0 <= i < |s| ==> r[i] == (if s[i] == from then to else s[i])
  {
    if s == [] then [] else [if s[0] == from then to else s[0]] + ReplaceChar(s[1..], from, to)
  }

  /** `a` is `b` with some elements left out, order kept. */
  predicate IsSubsequence<T(==)>(a: seq<T>, b: seq<T>)
    decreases |b|
  {
    a == [] || (b != [] && if a[0] == b[0] then IsSubsequence(a[1..], b[1..]) else IsSubsequence(a, b[1..]))
  }

  /** String.Replace of a one-character string by the empty string: every
      occurrence goes and the other characters keep their order. */
  function RemoveChar(s: string, c: char): (r: string)
    ensures |r| == |s| - multiset(s)[c]
    ensures IsSubsequence(r, s)
    ensures forall x :: x in r <==> x in s && x != c
    ensures c !in s ==> r == s
    ensures r == [] <==> forall i :: 0 <= i < |s| ==> s[i] == c
  {
    if s == [] then []
    else
      assert s == [s[0]] + s[1..];
      var rest := RemoveChar(s[1..], c);
      if s[0] == c then
        assert rest == [] || rest[0] != s[0] by {
          if rest != [] {
            assert rest[0] in rest;
          }
        }
        rest
      else
        assert ([s[0]] + rest)[1..] == rest;
        [s[0]] + rest
  }

  /** `sub` occurs in `s` starting at index `i`. */
  predicate OccursAt(sub: string, s: string, i: int)
  {
    0 <= i <= |s| - |sub| && s[i..i + |sub|] == sub
  }

  /** `sub` occurs in `s` as a contiguous block. */
  ghost predicate Occurs(sub: string, s: string)
  {
    exists i :: OccursAt(sub, s, i)
  }

  /** String.Replace(string, string) with an ordinal comparison: a left-to-right scan that replaces
      non-overlapping occurrences of a non-empty `oldValue`. */
  function ReplaceString(s: string, oldValue: string, newValue: string): string
    requires oldValue != []
    decreases |s|
  {
    if |s| < |oldValue| then s
    else if s[..|oldValue|] == oldValue then newValue + ReplaceString(s[|oldValue|..], oldValue, newValue)
    else [s[0]] + ReplaceString(s[1..], oldValue, newValue)
  }

  lemma {:induction false} ReplaceStringAbsent(s: string, oldValue: string, newValue: string)
    requires oldValue != [] && !Occurs(oldValue, s)
    ensures ReplaceString(s, oldValue, newValue) == s
    decreases |s|
  {
    if |s| >= |oldValue| {
      assert !OccursAt(oldValue, s, 0);
      assert s[0..0 + |oldValue|] == s[..|oldValue|];
      forall i | 0 <= i <= |s| - 1 - |oldValue|
        ensures !OccursAt(oldValue, s[1..], i)
      {
        assert s[1..][i..i + |oldValue|] == s[i + 1..i + 1 + |oldValue|];
        assert !OccursAt(oldValue, s, i + 1);
      }
      ReplaceStringAbsent(s[1..], oldValue, newValue);
    }
  }

  /** A run of `n` spaces. */
  function Spaces(n: nat): (r: string)
    ensures |r| == n && forall i :: 0 <= i < n ==> r[i] == ' '
  {
    if n == 0 then [] else [' '] + Spaces(n - 1)
  }

  /** String.PadRight(totalWidth): pads with spaces up to the width and never truncates. */
  function PadRight(s: string, totalWidth: nat): (r: string)
    ensures s <= r
    ensures |r| == if |s| < totalWidth then totalWidth else |s|
    ensures forall i :: |s| <= i < |r| ==> r[i] == ' '
  {
    if |s| < totalWidth then s + Spaces(totalWidth - |s|) else s
  }
}
