/** Character and string helpers shared by the Rust and the C# code paths. */
module Text {
  import opened Wrappers

  /** The Unicode White_Space property: the set tested by Rust's `char::is_whitespace`
      (used by `str::trim`) and by .NET's `char.IsWhiteSpace` (used by `string.Trim`
      and `string.IsNullOrWhiteSpace`). */
  predicate IsWhiteSpace(c: char) {
    ('\t' <= c <= '\r') || c == ' ' || c == '\U{85}' || c == '\U{A0}' || c == '\U{1680}'
    || ('\U{2000}' <= c <= '\U{200A}') || c == '\U{2028}' || c == '\U{2029}'
    || c == '\U{202F}' || c == '\U{205F}' || c == '\U{3000}'
  }

  predicate AllWhiteSpace(s: string) {
    forall i :: 0 <= i < |s| ==> IsWhiteSpace(s[i])
  }

  /** Drops leading white space. */
  function TrimStart(s: string): (r: string)
    ensures |r| <= |s| && r == s[|s| - |r|..]
    ensures r == [] || !IsWhiteSpace(r[0])
    ensures AllWhiteSpace(s[..|s| - |r|])
  {
    if |s| > 0 && IsWhiteSpace(s[0]) then TrimStart(s[1..]) else s
  }

  /** Drops trailing white space. */
  function TrimEnd(s: string): (r: string)
    ensures |r| <= |s| && r == s[..|r|]
    ensures r == [] || !IsWhiteSpace(r[|r| - 1])
    ensures AllWhiteSpace(s[|r|..])
  {
    if |s| > 0 && IsWhiteSpace(s[|s| - 1]) then
      var r := TrimEnd(s[..|s| - 1]);
      assert s[|r|..] == s[..|s| - 1][|r|..] + [s[|s| - 1]];
      r
    else s
  }

  /** Rust's `str::trim` and .NET's `string.Trim()`. */
  function Trim(s: string): (r: string)
    ensures r == [] || (!IsWhiteSpace(r[0]) && !IsWhiteSpace(r[|r| - 1]))
  {
    TrimEnd(TrimStart(s))
  }

  lemma TrimEmptyIffAllWhiteSpace(s: string)
    ensures Trim(s) == [] <==> AllWhiteSpace(s)
  {
    var t := TrimStart(s);
    assert s[..|s| - |t|] + t == s;
  }

  lemma TrimOfTrimmed(s: string)
    requires s == [] || (!IsWhiteSpace(s[0]) && !IsWhiteSpace(s[|s| - 1]))
    ensures Trim(s) == s
  {
  }

  lemma {:induction false} TrimStartPadded(pad: string, s: string)
    requires AllWhiteSpace(pad) && (s == [] || !IsWhiteSpace(s[0]))
    ensures TrimStart(pad + s) == s
    decreases |pad|
  {
    if pad == [] {
      assert pad + s == s;
    } else {
      assert (pad + s)[1..] == pad[1..] + s;
      TrimStartPadded(pad[1..], s);
    }
  }

  lemma {:induction false} TrimEndPadded(s: string, pad: string)
    requires AllWhiteSpace(pad) && (s == [] || !IsWhiteSpace(s[|s| - 1]))
    ensures TrimEnd(s + pad) == s
    decreases |pad|
  {
    if pad == [] {
      assert s + pad == s;
    } else {
      var init := pad[..|pad| - 1];
      assert (s + pad)[..|s + pad| - 1] == s + init;
      TrimEndPadded(s, init);
    }
  }

  /** Trimming removes exactly the padding around a word. */
  lemma TrimPadded(before: string, w: string, after: string)
    requires AllWhiteSpace(before) && AllWhiteSpace(after)
    requires w != [] && !IsWhiteSpace(w[0]) && !IsWhiteSpace(w[|w| - 1])
    ensures Trim(before + w + after) == w
  {
    assert before + w + after == before + (w + after);
    TrimStartPadded(before, w + after);
    TrimEndPadded(w, after);
  }

  /** ASCII-only lower-casing of one character. */
  function AsciiLower(c: char): (r: char)
    ensures 'A' <= c <= 'Z' ==> r as int == c as int + 32
    ensures !('A' <= c <= 'Z') ==> r == c
  {
    if 'A' <= c <= 'Z' then (c as int + 32) as char else c
  }

  function ToLowerAscii(s: string): (r: string)
    ensures |r| == |s|
    ensures forall i :: 0 <= i < |s| ==> r[i] == AsciiLower(s[i])
  {
    seq(|s|, i requires 0 <= i < |s| => AsciiLower(s[i]))
  }

  /** ASCII case-insensitive equality (Rust `eq_ignore_ascii_case`; also the model of
      .NET's `StringComparison.OrdinalIgnoreCase`). */
  predicate EqualsIgnoreAsciiCase(a: string, b: string) {
    |a| == |b| && forall i :: 0 <= i < |a| ==> AsciiLower(a[i]) == AsciiLower(b[i])
  }

  /** When the literal being compared against has no letters, case-insensitive
      equality is plain equality. */
  lemma EqualsIgnoreCaseWithoutLetters(a: string, lit: string)
    requires forall i :: 0 <= i < |lit| ==> !('A' <= lit[i] <= 'Z') && !('a' <= lit[i] <= 'z')
    ensures EqualsIgnoreAsciiCase(a, lit) <==> a == lit
  {
    if EqualsIgnoreAsciiCase(a, lit) {
      forall i | 0 <= i < |a| ensures a[i] == lit[i] {
        assert AsciiLower(a[i]) == lit[i];
      }
    }
  }

  predicate StartsWith(s: string, prefix: string) {
    |prefix| <= |s| && s[..|prefix|] == prefix
  }

  /** Index of the first character of `s` in `cs`, or -1 (`IndexOf`, `find`). */
  function IndexOfAny(s: string, cs: set<char>): (r: int)
    ensures -1 <= r < |s|
    ensures r >= 0 ==> s[r] in cs && forall j :: 0 <= j < r ==> s[j] !in cs
    ensures r == -1 ==> forall j :: 0 <= j < |s| ==> s[j] !in cs
  {
    if s == [] then -1
    else if s[0] in cs then 0
    else
      var k := IndexOfAny(s[1..], cs);
      if k < 0 then -1 else k + 1
  }

  function IndexOf(s: string, c: char): (r: int)
    ensures -1 <= r < |s|
    ensures r >= 0 ==> s[r] == c && c !in s[..r]
    ensures r == -1 <==> c !in s
  {
    var k := IndexOfAny(s, {c});
    assert k >= 0 ==> forall j :: 0 <= j < k ==> s[..k][j] == s[j];
    k
  }

  /** Rust's `splitn(2, c)` with both halves defaulted to "": everything before the first
      `c`, and everything after it ("" when there is no `c`). */
  function SplitOnce(s: string, c: char): (r: (string, string))
    ensures c !in s ==> r == (s, "")
    ensures c in s ==> c !in r.0 && s == r.0 + [c] + r.1
  {
    var i := IndexOf(s, c);
    if i < 0 then (s, "") else (s[..i], s[i + 1..])
  }

  /** .NET's `string.IsNullOrWhiteSpace`. */
  predicate IsNullOrWhiteSpace(v: Option<string>) {
    v.None? || AllWhiteSpace(v.value)
  }

  /** Decimal rendering of a natural number. */
  function NatToString(n: nat): (r: string)
    ensures |r| > 0
    ensures forall i :: 0 <= i < |r| ==> '0' <= r[i] <= '9'
  {
    var d := [('0' as int + n % 10) as char];
    if n < 10 then d else NatToString(n / 10) + d
  }
}
