/**
 * Normalisation of a speech-recognition transcript, as the game applies it
 * to every result before it becomes the pending transcript:
 * `transcript.trim().toLowerCase()` followed by `replace(/\s+/g, "")`.
 */
module Transcript {
  import opened Common

  /** A character in JavaScript's `\s` class, which is also the set that
      `String.prototype.trim` removes: the WhiteSpace characters (TAB, VT, FF,
      SPACE, NO-BREAK SPACE, ZERO WIDTH NO-BREAK SPACE and category Zs) and the
      LineTerminator characters (LF, CR, LINE SEPARATOR, PARAGRAPH SEPARATOR). */
  predicate IsWhitespace(c: char) {
    || c == '\t' || c == '\n' || c == '\U{000B}' || c == '\U{000C}' || c == '\r'
    || c == ' ' || c == '\U{00A0}' || c == '\U{1680}'
    || ('\U{2000}' <= c <= '\U{200A}')
    || c == '\U{2028}' || c == '\U{2029}' || c == '\U{202F}' || c == '\U{205F}'
    || c == '\U{3000}' || c == '\U{FEFF}'
  }

  predicate IsUpper(c: char) {
    'A' <= c <= 'Z'
  }

  predicate NoWhitespace(s: string) {
    forall i :: 0 <= i < |s| ==> !IsWhitespace(s[i])
  }

  predicate NoUpper(s: string) {
    forall i :: 0 <= i < |s| ==> !IsUpper(s[i])
  }

  /** `toLowerCase` on one character, restricted to the ASCII letters. */
  function LowerChar(c: char): (r: char)
    ensures !IsUpper(r)
    ensures IsUpper(c) ==> 'a' <= r <= 'z' && r as int - c as int == 'a' as int - 'A' as int
    ensures !IsUpper(c) ==> r == c
  {
    if IsUpper(c) then (c as int - 'A' as int + 'a' as int) as char else c
  }

  /** `String.prototype.toLowerCase`: every character lowered, length kept. */
  function ToLowerCase(s: string): (r: string)
    ensures |r| == |s|
    ensures forall i :: 0 <= i < |s| ==> r[i] == LowerChar(s[i])
    ensures NoUpper(r)
  {
    if s == [] then [] else [LowerChar(s[0])] + ToLowerCase(s[1..])
  }

  /** The number of whitespace characters at the start of `s`. */
  function LeadingWhitespace(s: string): (n: nat)
    ensures n <= |s|
    ensures forall i :: 0 <= i < n ==> IsWhitespace(s[i])
    ensures n < |s| ==> !IsWhitespace(s[n])
  {
    if s != [] && IsWhitespace(s[0]) then 1 + LeadingWhitespace(s[1..]) else 0
  }

  /** The number of whitespace characters at the end of `s`. */
  function TrailingWhitespace(s: string): (n: nat)
    ensures n <= |s|
    ensures forall i :: |s| - n <= i < |s| ==> IsWhitespace(s[i])
    ensures n < |s| ==> !IsWhitespace(s[|s| - n - 1])
  {
    if s != [] && IsWhitespace(s[|s| - 1]) then 1 + TrailingWhitespace(s[..|s| - 1]) else 0
  }

  /** `String.prototype.trim`: leading and then trailing whitespace removed. */
  function Trim(s: string): (r: string)
    ensures r != [] ==> !IsWhitespace(r[0]) && !IsWhitespace(r[|r| - 1])
  {
    var rest := s[LeadingWhitespace(s)..];
    rest[..|rest| - TrailingWhitespace(rest)]
  }

  /** `replace(/\s+/g, "")`: every whitespace character deleted, the others
      kept in order. */
  function StripWhitespace(s: string): (r: string)
    ensures NoWhitespace(r)
    ensures |r| <= |s|
    ensures NoUpper(s) ==> NoUpper(r)
  {
    if s == [] then []
    else if IsWhitespace(s[0]) then StripWhitespace(s[1..])
    else [s[0]] + StripWhitespace(s[1..])
  }

  /** The normalised transcript that the game compares against falling words. */
  function Normalize(transcript: string): (r: string)
    ensures NoWhitespace(r)
    ensures NoUpper(r)
  {
    StripWhitespace(ToLowerCase(Trim(transcript)))
  }

  lemma {:induction false} StripKeepsClean(s: string)
    requires NoWhitespace(s)
    ensures StripWhitespace(s) == s
  {
    if s != [] {
      StripKeepsClean(s[1..]);
    }
  }

  lemma {:induction false} LowerKeepsLower(s: string)
    requires NoUpper(s)
    ensures ToLowerCase(s) == s
  {
    if s != [] {
      LowerKeepsLower(s[1..]);
    }
  }

  /** Normalising an already normalised transcript changes nothing. */
  lemma NormalizeIdempotent(s: string)
    ensures Normalize(Normalize(s)) == Normalize(s)
  {
    var n := Normalize(s);
    assert Trim(n) == n;
    LowerKeepsLower(n);
    StripKeepsClean(n);
  }

  lemma {:induction false} LowerAppend(a: string, b: string)
    ensures ToLowerCase(a + b) == ToLowerCase(a) + ToLowerCase(b)
  {
    if a != [] {
      assert (a + b)[1..] == a[1..] + b;
      LowerAppend(a[1..], b);
    }
  }

  lemma {:induction false} StripAppend(a: string, b: string)
    ensures StripWhitespace(a + b) == StripWhitespace(a) + StripWhitespace(b)
  {
    if a == [] {
      assert a + b == b;
    } else {
      assert (a + b)[1..] == a[1..] + b;
      StripAppend(a[1..], b);
    }
  }

  lemma {:induction false} StripAllWhitespace(s: string)
    requires AllWhitespace(s)
    ensures StripWhitespace(ToLowerCase(s)) == []
  {
    if s != [] {
      StripAllWhitespace(s[1..]);
    }
  }

  predicate AllWhitespace(s: string) {
    forall i :: 0 <= i < |s| ==> IsWhitespace(s[i])
  }

  lemma DropLeadingWhitespace(head: string, x: string)
    requires AllWhitespace(head)
    ensures StripWhitespace(ToLowerCase(head + x)) == StripWhitespace(ToLowerCase(x))
  {
    LowerAppend(head, x);
    StripAppend(ToLowerCase(head), ToLowerCase(x));
    StripAllWhitespace(head);
    assert [] + StripWhitespace(ToLowerCase(x)) == StripWhitespace(ToLowerCase(x));
  }

  lemma DropTrailingWhitespace(x: string, tail: string)
    requires AllWhitespace(tail)
    ensures StripWhitespace(ToLowerCase(x + tail)) == StripWhitespace(ToLowerCase(x))
  {
    LowerAppend(x, tail);
    StripAppend(ToLowerCase(x), ToLowerCase(tail));
    StripAllWhitespace(tail);
    assert StripWhitespace(ToLowerCase(x)) + [] == StripWhitespace(ToLowerCase(x));
  }

  lemma WhitespacePrefix(s: string, n: nat)
    requires n <= |s|
    requires forall i :: 0 <= i < n ==> IsWhitespace(s[i])
    ensures AllWhitespace(s[..n])
  {
    forall i | 0 <= i < n ensures IsWhitespace(s[..n][i]) {
      assert s[..n][i] == s[i];
    }
  }

  lemma WhitespaceSuffix(s: string, n: nat)
    requires n <= |s|
    requires forall i :: |s| - n <= i < |s| ==> IsWhitespace(s[i])
    ensures AllWhitespace(s[|s| - n..])
  {
    var b := |s| - n;
    forall i | 0 <= i < n ensures IsWhitespace(s[b..][i]) {
      assert s[b..][i] == s[b + i];
    }
  }

  /** `trim` only removes whitespace: the input is the trimmed text with
      whitespace before and after it. */
  lemma TrimDecomposes(s: string) returns (head: string, tail: string)
    ensures s == head + (Trim(s) + tail)
    ensures AllWhitespace(head) && AllWhitespace(tail)
  {
    var n := LeadingWhitespace(s);
    var t := s[n..];
    var m := TrailingWhitespace(t);
    var b := |t| - m;
    head, tail := s[..n], t[b..];
    WhitespacePrefix(s, n);
    WhitespaceSuffix(t, m);
    SplitAt(s, n);
    SplitAt(t, b);
    assert Trim(s) == t[..b];
  }

  /** The leading `trim()` is subsumed by the global whitespace deletion:
      the normalised transcript is the lowered input with all whitespace removed. */
  lemma TrimIsRedundant(s: string)
    ensures Normalize(s) == StripWhitespace(ToLowerCase(s))
  {
    var head, tail := TrimDecomposes(s);
    var m := Trim(s);
    calc {
      StripWhitespace(ToLowerCase(s));
      StripWhitespace(ToLowerCase(head + (m + tail)));
      { DropLeadingWhitespace(head, m + tail); }
      StripWhitespace(ToLowerCase(m + tail));
      { DropTrailingWhitespace(m, tail); }
      StripWhitespace(ToLowerCase(m));
    }
  }
}
