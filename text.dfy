/** The string operations the loader and the service rely on: Python's
    str.strip(), str.lower(), str.isdigit() and str.replace('.', '', 1), and
    the substring test behind a case-insensitive LIKE '%q%' match. */
module Text {

  /** Whitespace as Python's str.strip() and str.isspace() see it. */
  predicate IsSpace(c: char) {
    ('\t' <= c <= '\r') || ('\U{1C}' <= c <= ' ') || c == '\U{85}' || c == '\U{A0}'
    || c == '\U{1680}' || ('\U{2000}' <= c <= '\U{200A}') || c == '\U{2028}'
    || c == '\U{2029}' || c == '\U{202F}' || c == '\U{205F}' || c == '\U{3000}'
  }

  /** On ASCII, str.isspace() holds for the six classic whitespace characters
      and the four separators U+001C to U+001F. */
  lemma IsSpaceAscii(c: char)
    requires c < '\U{80}'
    ensures IsSpace(c) <==> c in {' ', '\t', '\n', '\U{0B}', '\U{0C}', '\r', '\U{1C}', '\U{1D}', '\U{1E}', '\U{1F}'}
  {
  }

  /** str.lstrip(). */
  function TrimStart(s: string): (r: string)
    ensures |r| <= |s|
  {
    if s != [] && IsSpace(s[0]) then TrimStart(s[1..]) else s
  }

  /** str.rstrip(). */
  function TrimEnd(s: string): (r: string)
    ensures |r| <= |s|
  {
    if s != [] && IsSpace(s[|s| - 1]) then TrimEnd(s[..|s| - 1]) else s
  }

  /** str.strip(). */
  function Trim(s: string): string {
    TrimEnd(TrimStart(s))
  }

  /** `r` is what is left of `s` once the whitespace before index `a` and
      after index `a + |r|` is cut off. */
  ghost predicate StripsTo(s: string, r: string, a: nat) {
    && a + |r| <= |s|
    && r == s[a..a + |r|]
    && (forall i :: 0 <= i < a ==> IsSpace(s[i]))
    && (forall i :: a + |r| <= i < |s| ==> IsSpace(s[i]))
  }

  /** TrimStart drops the leading whitespace and stops at the first other character. */
  lemma {:induction false} TrimStartShape(s: string)
    ensures StripsTo(s, TrimStart(s), |s| - |TrimStart(s)|)
    ensures TrimStart(s) == [] || !IsSpace(TrimStart(s)[0])
  {
    if s != [] && IsSpace(s[0]) {
      TrimStartShape(s[1..]);
      assert forall i :: 1 <= i < |s| ==> s[i] == s[1..][i - 1];
      assert s[1..][|s| - 1 - |TrimStart(s)|..] == s[|s| - |TrimStart(s)|..];
    }
  }

  /** TrimEnd drops the trailing whitespace and stops at the last other character. */
  lemma {:induction false} TrimEndShape(s: string)
    ensures StripsTo(s, TrimEnd(s), 0)
    ensures TrimEnd(s) == [] || !IsSpace(TrimEnd(s)[|TrimEnd(s)| - 1])
  {
    if s != [] && IsSpace(s[|s| - 1]) {
      TrimEndShape(s[..|s| - 1]);
    }
  }

  /** Trim only cuts whitespace off the two ends of its argument, and what
      it leaves starts and ends with a character that is not whitespace. */
  lemma TrimSlice(s: string) returns (a: nat)
    ensures StripsTo(s, Trim(s), a)
    ensures Trim(s) == [] || (!IsSpace(Trim(s)[0]) && !IsSpace(Trim(s)[|Trim(s)| - 1]))
  {
    var t := TrimStart(s);
    TrimStartShape(s);
    TrimEndShape(t);
    a := |s| - |t|;
    var r := TrimEnd(t);
    forall i | a + |r| <= i < |s| ensures IsSpace(s[i]) {
      assert s[i] == t[i - a];
    }
    assert r == [] || r[0] == t[0];
  }

  /** A string that neither starts nor ends with whitespace is its own trim. */
  lemma TrimUnpadded(s: string)
    requires s == [] || (!IsSpace(s[0]) && !IsSpace(s[|s| - 1]))
    ensures Trim(s) == s
  {
  }

  /** A string trims to nothing exactly when it is all whitespace. */
  lemma TrimEmptyIff(s: string)
    ensures Trim(s) == [] <==> forall i :: 0 <= i < |s| ==> IsSpace(s[i])
  {
    var a := TrimSlice(s);
  }

  /** Trimming twice is trimming once. */
  lemma TrimIdempotent(s: string)
    ensures Trim(Trim(s)) == Trim(s)
  {
    var a := TrimSlice(s);
    TrimUnpadded(Trim(s));
  }

  lemma {:induction false} TrimStartAfterSpaces(p: string, x: string)
    requires forall i :: 0 <= i < |p| ==> IsSpace(p[i])
    ensures TrimStart(p + x) == TrimStart(x)
  {
    if p != [] {
      assert (p + x)[1..] == p[1..] + x;
      TrimStartAfterSpaces(p[1..], x);
    } else {
      assert p + x == x;
    }
  }

  lemma {:induction false} TrimStartBeforeText(x: string, q: string)
    requires TrimStart(x) != []
    ensures TrimStart(x + q) == TrimStart(x) + q
  {
    if IsSpace(x[0]) {
      assert (x + q)[1..] == x[1..] + q;
      TrimStartBeforeText(x[1..], q);
    }
  }

  lemma {:induction false} TrimEndBeforeSpaces(x: string, q: string)
    requires forall i :: 0 <= i < |q| ==> IsSpace(q[i])
    ensures TrimEnd(x + q) == TrimEnd(x)
    decreases |q|
  {
    if q != [] {
      var q' := q[..|q| - 1];
      assert (x + q)[..|x + q| - 1] == x + q';
      TrimEndBeforeSpaces(x, q');
    } else {
      assert x + q == x;
    }
  }

  /** Whitespace around a string does not change what it trims to. */
  lemma TrimPadding(pre: string, s: string, post: string)
    requires forall i :: 0 <= i < |pre| ==> IsSpace(pre[i])
    requires forall i :: 0 <= i < |post| ==> IsSpace(post[i])
    ensures Trim(pre + s + post) == Trim(s)
  {
    var w := pre + s + post;
    assert w == pre + (s + post);
    TrimStartAfterSpaces(pre, s + post);
    if TrimStart(s) != [] {
      TrimStartBeforeText(s, post);
      TrimEndBeforeSpaces(TrimStart(s), post);
    } else {
      TrimEmptyIff(s);
      TrimEmptyIff(w);
      forall i | 0 <= i < |w| ensures IsSpace(w[i]) {
        if i < |pre| {
          assert w[i] == pre[i];
        } else if i < |pre| + |s| {
          assert w[i] == s[i - |pre|];
        } else {
          assert w[i] == post[i - |pre| - |s|];
        }
      }
    }
  }

  /** str.lower() on one character (ASCII letters only). */
  function LowerChar(c: char): char {
    if 'A' <= c <= 'Z' then (c as int + 32) as char else c
  }

  /** str.lower() (ASCII letters only). */
  function Lower(s: string): string {
    seq(|s|, i requires 0 <= i < |s| => LowerChar(s[i]))
  }

  /** Lower-casing keeps every character's whitespace-ness, so it commutes with trimming. */
  lemma LowerKeepsSpace(c: char)
    ensures IsSpace(LowerChar(c)) <==> IsSpace(c)
  {
  }

  /** A character of str.isdigit() (ASCII digits only). */
  predicate IsDigitChar(c: char) {
    '0' <= c <= '9'
  }

  /** Every character is a digit (true of the empty string). */
  predicate AllDigits(s: string) {
    forall i :: 0 <= i < |s| ==> IsDigitChar(s[i])
  }

  /** str.isdigit(): non-empty and digits only. */
  predicate IsDigits(s: string) {
    |s| > 0 && AllDigits(s)
  }

  /** str.isdigit() rejects the empty text, signs and decimal points. */
  lemma IsDigitsIff(s: string)
    ensures IsDigits(s) <==> s != [] && forall i :: 0 <= i < |s| ==> '0' <= s[i] <= '9'
    ensures IsDigits(s) ==> '.' !in s && '-' !in s && '+' !in s
  {
  }

  /** str.replace('.', '', 1): removes the first '.', if there is one. */
  function RemoveFirstDot(s: string): string {
    if s == [] then []
    else if s[0] == '.' then s[1..]
    else [s[0]] + RemoveFirstDot(s[1..])
  }

  /** Number of '.' characters in `s`. */
  function DotCount(s: string): nat {
    if s == [] then 0 else (if s[0] == '.' then 1 else 0) + DotCount(s[1..])
  }

  /** Every character is a digit or a '.'. */
  predicate DigitsAndDots(s: string) {
    forall i :: 0 <= i < |s| ==> IsDigitChar(s[i]) || s[i] == '.'
  }

  /** A text is digits and dots exactly when its first character and its rest are. */
  lemma DigitsAndDotsCons(c: char, t: string)
    ensures DigitsAndDots([c] + t) <==> (IsDigitChar(c) || c == '.') && DigitsAndDots(t)
  {
    var s := [c] + t;
    assert s[0] == c;
    assert forall j :: 0 <= j < |t| ==> s[j + 1] == t[j];
    if DigitsAndDots(s) {
      forall j | 0 <= j < |t| ensures IsDigitChar(t[j]) || t[j] == '.' {
        assert s[j + 1] == t[j];
      }
    }
  }

  lemma {:induction false} RemoveFirstDotShape(s: string)
    ensures |RemoveFirstDot(s)| == |s| - (if DotCount(s) > 0 then 1 else 0)
    ensures DotCount(RemoveFirstDot(s)) == DotCount(s) - (if DotCount(s) > 0 then 1 else 0)
    ensures DigitsAndDots(RemoveFirstDot(s)) <==> DigitsAndDots(s)
  {
    if s != [] {
      var t := s[1..];
      assert s == [s[0]] + t;
      DigitsAndDotsCons(s[0], t);
      if s[0] != '.' {
        RemoveFirstDotShape(t);
        DigitsAndDotsCons(s[0], RemoveFirstDot(t));
      }
    }
  }

  lemma {:induction false} AllDigitsNoDots(s: string)
    ensures AllDigits(s) <==> DigitsAndDots(s) && DotCount(s) == 0
  {
    if s != [] {
      AllDigitsNoDots(s[1..]);
      assert forall i :: 0 < i < |s| ==> s[i] == s[1..][i - 1];
    }
  }

  /** The text the loader reads as a Unix epoch: non-empty, digits and at
      most one '.', and at least one digit. */
  predicate EpochShape(t: string) {
    DigitsAndDots(t) && DotCount(t) <= 1 && |t| > DotCount(t)
  }

  /** The loader's test `t.isdigit() or t.replace('.', '', 1).isdigit()`. */
  predicate LooksLikeEpoch(t: string) {
    IsDigits(t) || IsDigits(RemoveFirstDot(t))
  }

  /** The loader's epoch test accepts exactly the digit strings with at most one '.'. */
  lemma EpochTestIff(t: string)
    ensures LooksLikeEpoch(t) <==> EpochShape(t)
  {
    AllDigitsNoDots(t);
    AllDigitsNoDots(RemoveFirstDot(t));
    RemoveFirstDotShape(t);
  }

  /** `q` occurs in `s` starting at index `i`. */
  ghost predicate OccursAt(s: string, q: string, i: nat) {
    i + |q| <= |s| && s[i..i + |q|] == q
  }

  /** Substring test, as in `q in s`. */
  function Contains(s: string, q: string): bool
    decreases |s|
  {
    if |q| > |s| then false
    else if s[..|q|] == q then true
    else Contains(s[1..], q)
  }

  /** Contains is exactly "occurs at some index". */
  lemma {:induction false} ContainsIff(s: string, q: string)
    ensures Contains(s, q) <==> exists i: nat :: OccursAt(s, q, i)
    decreases |s|
  {
    if |q| > |s| {
    } else if s[..|q|] == q {
      assert OccursAt(s, q, 0);
    } else {
      ContainsIff(s[1..], q);
      if exists i: nat :: OccursAt(s[1..], q, i) {
        var i: nat :| OccursAt(s[1..], q, i);
        assert s[i + 1..i + 1 + |q|] == s[1..][i..i + |q|];
        assert OccursAt(s, q, i + 1);
      }
      if exists i: nat :: OccursAt(s, q, i) {
        var i: nat :| OccursAt(s, q, i);
        assert i != 0;
        assert s[1..][i - 1..i - 1 + |q|] == s[i..i + |q|];
        assert OccursAt(s[1..], q, i - 1);
      }
    }
  }

  /** An occurrence survives lower-casing both strings. */
  lemma LowerKeepsOccurrence(s: string, q: string, i: nat)
    requires OccursAt(s, q, i)
    ensures OccursAt(Lower(s), Lower(q), i)
  {
    assert Lower(s)[i..i + |q|] == Lower(s[i..i + |q|]);
  }
}
