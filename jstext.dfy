/** The handful of JavaScript string operations the handlers rely on: `trim`,
    `toLowerCase`, and writing a whole number in decimal inside a template string. */
module JsText {
  import opened Records

  /** The white-space characters that `trim` strips (line terminators included). */
  predicate IsSpace(c: char) {
    c == ' ' || c == '\t' || c == '\n' || c == '\r' || c == '\U{000B}' || c == '\U{000C}'
    || c == '\U{00A0}' || c == '\U{FEFF}' || c == '\U{2028}' || c == '\U{2029}'
  }

  predicate AllSpace(s: string) {
    forall i :: 0 <= i < |s| ==> IsSpace(s[i])
  }

  /** `s` without its leading white space: a suffix of `s` that starts with a non-space. */
  function TrimStart(s: string): (r: string)
    ensures |r| <= |s| && r == s[|s| - |r|..]
    ensures r == [] || !IsSpace(r[0])
    ensures AllSpace(s[..|s| - |r|])
  {
    if |s| > 0 && IsSpace(s[0]) then TrimStart(s[1..]) else s
  }

  /** `s` without its trailing white space: a prefix of `s` that ends with a non-space. */
  function TrimEnd(s: string): (r: string)
    ensures |r| <= |s| && r == s[..|r|]
    ensures r == [] || !IsSpace(r[|r| - 1])
    ensures AllSpace(s[|r|..])
  {
    if |s| > 0 && IsSpace(s[|s| - 1]) then TrimEnd(s[..|s| - 1]) else s
  }

  /** `s.trim()`: `s` with the white space at both ends removed; the result is empty
      exactly when `s` is all white space, and otherwise starts and ends with a non-space. */
  function Trim(s: string): (r: string)
    ensures |r| <= |s|
    ensures r == [] || (!IsSpace(r[0]) && !IsSpace(r[|r| - 1]))
    ensures r == [] <==> AllSpace(s)
  {
    TrimEmptyOnlyWhenAllSpace(s);
    TrimEnd(TrimStart(s))
  }

  lemma TrimEmptyOnlyWhenAllSpace(s: string)
    ensures TrimEnd(TrimStart(s)) == [] <==> AllSpace(s)
  {
    var t := TrimStart(s);
    var n := |s| - |t|;
    if TrimEnd(t) == [] {
      assert t[0..] == t;
      assert s[..n] == s;
    }
    if t != [] {
      assert t[0] == s[n];
    }
  }

  /** `trim` takes nothing further from a string it has already trimmed. */
  lemma {:induction false} TrimIdempotent(s: string)
    ensures Trim(Trim(s)) == Trim(s)
  {
    var r := Trim(s);
    if r != [] {
      assert TrimStart(r) == r;
      assert TrimEnd(r) == r;
    }
  }

  function LowerChar(c: char): char {
    if 'A' <= c <= 'Z' then (c as int + 32) as char else c
  }

  /** `toLowerCase` on the ASCII letters: same length, each letter lowered, no capital left. */
  function ToLower(s: string): (r: string)
    ensures |r| == |s|
    ensures forall i :: 0 <= i < |s| ==> r[i] == LowerChar(s[i]) && !('A' <= r[i] <= 'Z')
  {
    seq(|s|, i requires 0 <= i < |s| => LowerChar(s[i]))
  }

  /** A lowered string never equals a string that holds a capital letter. */
  lemma LoweredDiffersFromCapitalised(s: string, t: string, k: nat)
    requires k < |t| && 'A' <= t[k] <= 'Z'
    ensures ToLower(s) != t
  {
    if |ToLower(s)| == |t| {
      assert ToLower(s)[k] != t[k];
    }
  }

  function DigitChar(d: nat): (c: char)
    requires d < 10
    ensures '0' <= c <= '9'
  {
    ('0' as int + d) as char
  }

  /** The decimal numeral of `n`, as `${n}` writes it: one or more digits. */
  function NatToString(n: nat): (s: string)
    ensures |s| >= 1
    ensures forall i :: 0 <= i < |s| ==> '0' <= s[i] <= '9'
    ensures n < 10 <==> |s| == 1
  {
    if n < 10 then [DigitChar(n)] else NatToString(n / 10) + [DigitChar(n % 10)]
  }

  /** Different numbers have different numerals. */
  lemma {:induction false} NatToStringInjective(a: nat, b: nat)
    requires NatToString(a) == NatToString(b)
    ensures a == b
    decreases a
  {
    var sa, sb := NatToString(a), NatToString(b);
    if a >= 10 && b >= 10 {
      assert sa[|sa| - 1] == DigitChar(a % 10) && sb[|sb| - 1] == DigitChar(b % 10);
      assert NatToString(a / 10) == sa[..|sa| - 1] == sb[..|sb| - 1] == NatToString(b / 10);
      NatToStringInjective(a / 10, b / 10);
    } else {
      assert |sa| == 1 && |sb| == 1;
      assert sa[0] == DigitChar(a) && sb[0] == DigitChar(b);
    }
  }

  /** Splits `s` at its last `sep`: the text before it and the text after it. */
  function SplitAtLast(s: string, sep: char): Option<(string, string)>
  {
    if |s| == 0 then None
    else if s[|s| - 1] == sep then Some((s[..|s| - 1], ""))
    else
      match SplitAtLast(s[..|s| - 1], sep)
      case None => None
      case Some(parts) => Some((parts.0, parts.1 + [s[|s| - 1]]))
  }

  /** Joining two strings with a separator that the second one does not contain can be
      undone by splitting at the last separator. */
  lemma {:induction false} SplitAtLastOfJoin(p: string, t: string, sep: char)
    requires sep !in t
    ensures SplitAtLast(p + [sep] + t, sep) == Some((p, t))
    decreases |t|
  {
    var s := p + [sep] + t;
    if |t| == 0 {
      assert s[..|s| - 1] == p;
    } else {
      var t' := t[..|t| - 1];
      assert s[..|s| - 1] == p + [sep] + t';
      SplitAtLastOfJoin(p, t', sep);
      assert t' + [t[|t| - 1]] == t;
    }
  }
}
