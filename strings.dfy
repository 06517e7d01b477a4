/** Text helpers used by the to-do list: Python's `str.strip()`, the ASCII part of
    `str.lower()`, and the code-point order the task list is sorted by. */
module Strings {

  /** The characters Python's `str.isspace()` accepts, which `str.strip()` removes. */
  predicate IsSpace(c: char) {
    c == ' ' || ('\t' <= c <= '\r') || ('\U{1C}' <= c <= '\U{1F}')
    || c == '\U{85}' || c == '\U{A0}' || c == '\U{1680}'
    || ('\U{2000}' <= c <= '\U{200A}') || c == '\U{2028}' || c == '\U{2029}'
    || c == '\U{202F}' || c == '\U{205F}' || c == '\U{3000}'
  }

  /** `s.lstrip()`: drop leading whitespace. */
  function TrimStart(s: string): string {
    if s != [] && IsSpace(s[0]) then TrimStart(s[1..]) else s
  }

  /** `s.rstrip()`: drop trailing whitespace. */
  function TrimEnd(s: string): string {
    if s != [] && IsSpace(s[|s| - 1]) then TrimEnd(s[..|s| - 1]) else s
  }

  /** `s.strip()`. */
  function Trim(s: string): string {
    TrimEnd(TrimStart(s))
  }

  /** Python's `lower()` on one character, restricted to ASCII letters. */
  function LowerChar(c: char): char {
    if 'A' <= c <= 'Z' then (c as int + 32) as char else c
  }

  function Lower(s: string): string {
    if s == [] then [] else [LowerChar(s[0])] + Lower(s[1..])
  }

  /** `lstrip` leaves the suffix of `s` that starts at its first non-space character. */
  lemma {:induction false} TrimStartSpec(s: string)
    ensures var r := TrimStart(s);
      && |r| <= |s| && r == s[|s| - |r|..]
      && (forall i :: 0 <= i < |s| - |r| ==> IsSpace(s[i]))
      && (r != [] ==> !IsSpace(r[0]))
  {
    if s != [] && IsSpace(s[0]) {
      var t := s[1..];
      TrimStartSpec(t);
      var r := TrimStart(t);
      assert s[|s| - |r|..] == t[|t| - |r|..];
      forall i | 0 < i < |s| - |r| ensures IsSpace(s[i]) {
        assert s[i] == t[i - 1];
      }
    }
  }

  /** `rstrip` leaves the prefix of `s` that ends at its last non-space character. */
  lemma {:induction false} TrimEndSpec(s: string)
    ensures var r := TrimEnd(s);
      && |r| <= |s| && r == s[..|r|]
      && (forall i :: |r| <= i < |s| ==> IsSpace(s[i]))
      && (r != [] ==> !IsSpace(r[|r| - 1]))
  {
    if s != [] && IsSpace(s[|s| - 1]) {
      var t := s[..|s| - 1];
      TrimEndSpec(t);
      var r := TrimEnd(t);
      assert s[..|r|] == t[..|r|];
      forall i | |r| <= i < |t| ensures IsSpace(s[i]) {
        assert s[i] == t[i];
      }
    }
  }

  /** `strip` leaves the middle of `s`: only whitespace is cut on either side, and the
      result neither starts nor ends with whitespace. */
  lemma TrimSpec(s: string)
    ensures var r := Trim(s); var k := |s| - |TrimStart(s)|;
      && 0 <= k && k + |r| <= |s| && r == s[k..k + |r|]
      && (forall i :: 0 <= i < k ==> IsSpace(s[i]))
      && (forall i :: k + |r| <= i < |s| ==> IsSpace(s[i]))
      && (r != [] ==> !IsSpace(r[0]) && !IsSpace(r[|r| - 1]))
  {
    TrimStartSpec(s);
    TrimEndSpec(TrimStart(s));
  }

  /** `lower` maps each character on its own and keeps the length. */
  lemma {:induction false} LowerSpec(s: string)
    ensures |Lower(s)| == |s|
    ensures forall i :: 0 <= i < |s| ==> Lower(s)[i] == LowerChar(s[i])
  {
    if s != [] {
      LowerSpec(s[1..]);
    }
  }

  /** Whitespace-only text (the empty string included) is what `not s.strip()` rejects. */
  predicate AllSpace(s: string) {
    forall i :: 0 <= i < |s| ==> IsSpace(s[i])
  }

  /** Trimming leaves nothing exactly when the text is all whitespace. */
  lemma TrimEmptyIff(s: string)
    ensures Trim(s) == [] <==> AllSpace(s)
  {
    TrimSpec(s);
    TrimStartSpec(s);
    TrimEndSpec(TrimStart(s));
    if Trim(s) == [] {
      assert TrimStart(s) == [];
    }
  }

  /** Text with non-space ends, surrounded by whitespace, trims back to itself. */
  lemma TrimPadded(pre: string, w: string, post: string)
    requires AllSpace(pre) && AllSpace(post)
    requires w != [] && !IsSpace(w[0]) && !IsSpace(w[|w| - 1])
    ensures Trim(pre + w + post) == w
  {
    var s := pre + w + post;
    TrimStartSpec(s);
    var t := TrimStart(s);
    TrimEndSpec(t);
    var k := |s| - |t|;
    assert s[|pre|] == w[0];
    assert forall i :: 0 <= i < |pre| ==> IsSpace(s[i]) by {
      forall i | 0 <= i < |pre| ensures IsSpace(s[i]) {
        assert s[i] == pre[i];
      }
    }
    assert k == |pre|;
    assert t == w + post;
    var r := TrimEnd(t);
    assert !IsSpace(t[|w| - 1]);
    assert forall i :: |w| <= i < |t| ==> IsSpace(t[i]) by {
      forall i | |w| <= i < |t| ensures IsSpace(t[i]) {
        assert t[i] == post[i - |w|];
      }
    }
    assert |r| == |w|;
    assert r == t[..|w|] == w;
  }

  /** Stripping twice is stripping once: the menu trims before the operations trim again. */
  lemma TrimIdempotent(s: string)
    ensures Trim(Trim(s)) == Trim(s)
  {
    var t := Trim(s);
    TrimSpec(s);
    if t != [] {
      TrimPadded([], t, []);
      assert [] + t + [] == t;
    }
  }

  /** Lexicographic order on code points, the order of a binary collation. */
  predicate StrLt(a: string, b: string)
    decreases |a|
  {
    if b == [] then false
    else if a == [] then true
    else a[0] < b[0] || (a[0] == b[0] && StrLt(a[1..], b[1..]))
  }

  lemma {:induction false} StrLtIrreflexive(a: string)
    ensures !StrLt(a, a)
    decreases |a|
  {
    if a != [] {
      StrLtIrreflexive(a[1..]);
    }
  }

  lemma {:induction false} StrLtTransitive(a: string, b: string, c: string)
    requires StrLt(a, b) && StrLt(b, c)
    ensures StrLt(a, c)
    decreases |a|
  {
    if a != [] && a[0] == b[0] && b[0] == c[0] {
      StrLtTransitive(a[1..], b[1..], c[1..]);
    }
  }

  lemma {:induction false} StrLtTotal(a: string, b: string)
    ensures a == b || StrLt(a, b) || StrLt(b, a)
    decreases |a|
  {
    if a != [] && b != [] && a[0] == b[0] {
      StrLtTotal(a[1..], b[1..]);
      if a[1..] == b[1..] {
        assert a == [a[0]] + a[1..] && b == [b[0]] + b[1..];
      }
    }
  }
}
