/**
 * The pieces of java.lang.String and java.lang.Integer that the server's
 * handlers rely on: trim, toLowerCase, contains, split and parseInt.
 */
module JavaText {
  import opened Wrappers

  // ---------------------------------------------------------------- trim

  /** String.trim removes every leading and trailing code point <= U+0020. */
  predicate IsBlank(c: char) {
    c <= ' '
  }

  /** Index of the first character that trim keeps (|s| when none is kept). */
  function TrimStart(s: string): (lo: nat)
    ensures lo <= |s|
    ensures forall k :: 0 <= k < lo ==> IsBlank(s[k])
    ensures lo < |s| ==> !IsBlank(s[lo])
    decreases |s|
  {
    if s == [] || !IsBlank(s[0]) then 0 else 1 + TrimStart(s[1..])
  }

  /** One past the last character that trim keeps, searching back to `lo`. */
  function TrimEnd(s: string, lo: nat): (hi: nat)
    requires lo <= |s|
    ensures lo <= hi <= |s|
    ensures forall k :: hi <= k < |s| ==> IsBlank(s[k])
    ensures hi > lo ==> !IsBlank(s[hi - 1])
    decreases |s|
  {
    if |s| == lo || !IsBlank(s[|s| - 1]) then |s| else TrimEnd(s[..|s| - 1], lo)
  }

  /** String.trim: the input with its leading and trailing blanks removed, and nothing else. */
  function Trim(s: string): (r: string)
    ensures |r| <= |s|
    ensures exists lo, hi ::
              && 0 <= lo <= hi <= |s| && r == s[lo..hi]
              && (forall k :: 0 <= k < lo ==> IsBlank(s[k]))
              && (forall k :: hi <= k < |s| ==> IsBlank(s[k]))
    ensures r == [] <==> forall k :: 0 <= k < |s| ==> IsBlank(s[k])
    ensures r != [] ==> !IsBlank(r[0]) && !IsBlank(r[|r| - 1])
  {
    var lo := TrimStart(s);
    var hi := TrimEnd(s, lo);
    s[lo..hi]
  }

  // --------------------------------------------------------- toLowerCase

  predicate IsUpper(c: char) {
    'A' <= c <= 'Z'
  }

  function LowerChar(c: char): char {
    if IsUpper(c) then (c as int + 32) as char else c
  }

  /**
   * String.toLowerCase on the ASCII letters: no upper-case letter is left,
   * and the only characters that change are upper-case letters, each to
   * the letter 32 code points above it.
   */
  function Lower(s: string): (r: string)
    ensures |r| == |s|
    ensures forall k :: 0 <= k < |r| ==> !IsUpper(r[k])
    ensures forall k :: 0 <= k < |s| && r[k] != s[k] ==> IsUpper(s[k]) && r[k] as int == s[k] as int + 32
  {
    seq(|s|, k requires 0 <= k < |s| => LowerChar(s[k]))
  }

  /** Trimming a lower-cased string keeps it free of upper-case letters. */
  lemma TrimLowerHasNoUpper(s: string)
    ensures forall k :: 0 <= k < |Trim(Lower(s))| ==> !IsUpper(Trim(Lower(s))[k])
  {
    var l := Lower(s);
    var lo, hi :| 0 <= lo <= hi <= |l| && Trim(l) == l[lo..hi];
    assert forall k :: 0 <= k < hi - lo ==> Trim(l)[k] == l[lo + k];
  }

  /** Lower-casing neither makes nor removes a blank. */
  lemma LowerKeepsBlanks(s: string)
    ensures |Lower(s)| == |s|
    ensures forall k :: 0 <= k < |s| ==> (IsBlank(Lower(s)[k]) <==> IsBlank(s[k]))
  {
  }

  /** A lower-cased, trimmed string is empty exactly when the original is all blank. */
  lemma TrimLowerEmpty(s: string)
    ensures Trim(Lower(s)) == [] <==> forall k :: 0 <= k < |s| ==> IsBlank(s[k])
  {
    LowerKeepsBlanks(s);
  }

  /** Lower-casing twice is lower-casing once. */
  lemma LowerIdempotent(s: string)
    ensures Lower(Lower(s)) == Lower(s)
  {
    var r := Lower(s);
    assert forall k :: 0 <= k < |r| ==> Lower(r)[k] == r[k];
  }

  /** Two strings that differ only in ASCII case lower-case alike. */
  lemma LowerIgnoresCase(x: string, y: string)
    requires |x| == |y|
    requires forall k :: 0 <= k < |x| ==> x[k] == y[k] || LowerChar(x[k]) == LowerChar(y[k])
    ensures Lower(x) == Lower(y)
  {
    assert forall k :: 0 <= k < |x| ==> Lower(x)[k] == Lower(y)[k];
  }

  // ------------------------------------------------------------ contains

  /** `t` occurs in `s` starting at index `i`. */
  predicate OccursAt(t: string, s: string, i: int) {
    0 <= i && i + |t| <= |s| && s[i..i + |t|] == t
  }

  lemma OccursShift(t: string, s: string, i: int)
    requires s != [] && 0 <= i
    ensures OccursAt(t, s[1..], i) <==> OccursAt(t, s, i + 1)
  {
    if 0 <= i && i + |t| <= |s| - 1 {
      assert s[1..][i..i + |t|] == s[i + 1..i + 1 + |t|];
    }
  }

  /** String.contains: `t` occurs somewhere in `s`. */
  function Contains(s: string, t: string): (b: bool)
    ensures b <==> exists i :: OccursAt(t, s, i)
    decreases |s|
  {
    if |t| > |s| then
      assert forall i :: !OccursAt(t, s, i);
      false
    else if s[..|t|] == t then
      assert OccursAt(t, s, 0);
      true
    else
      var rest := Contains(s[1..], t);
      forall i | 0 <= i ensures OccursAt(t, s[1..], i) <==> OccursAt(t, s, i + 1) {
        OccursShift(t, s, i);
      }
      assert forall i :: OccursAt(t, s, i) ==> i >= 1 && OccursAt(t, s[1..], i - 1);
      rest
  }

  // ------------------------------------------------------------ parseInt

  const MinInt: int := -0x8000_0000
  const MaxInt: int := 0x7fff_ffff

  predicate IsDigit(c: char) {
    '0' <= c <= '9'
  }

  predicate AllDigits(s: string) {
    forall k :: 0 <= k < |s| ==> IsDigit(s[k])
  }

  /** Decimal value of a string of digits, most significant first. */
  function DigitsValue(ds: string): nat
    requires AllDigits(ds)
  {
    if ds == [] then 0 else DigitsValue(ds[..|ds| - 1]) * 10 + (ds[|ds| - 1] as int - '0' as int)
  }

  /** An optional '+' or '-' followed by at least one decimal digit. */
  predicate SignedDigits(s: string) {
    && s != []
    && (s[0] in "+-" ==> |s| >= 2)
    && forall k :: 0 <= k < |s| ==> IsDigit(s[k]) || (k == 0 && s[k] in "+-")
  }

  /** The value a sign-and-digits string denotes, unbounded. */
  function SignedValue(s: string): int
    requires SignedDigits(s)
  {
    if s[0] == '-' then -(DigitsValue(s[1..]) as int)
    else if s[0] == '+' then DigitsValue(s[1..])
    else DigitsValue(s)
  }

  /**
   * Integer.parseInt: an optional '+' or '-', then at least one decimal
   * digit, with a value that fits in 32 bits; anything else is the
   * NumberFormatException, here None.
   */
  function ParseInt(s: string): (r: Option<int>)
    ensures r.Some? <==> SignedDigits(s) && MinInt <= SignedValue(s) <= MaxInt
    ensures r.Some? ==> r.value == SignedValue(s)
  {
    if s == [] then None
    else
      var digits := if s[0] == '-' || s[0] == '+' then s[1..] else s;
      if digits == [] || !AllDigits(digits) then None
      else
        var v: int := if s[0] == '-' then -(DigitsValue(digits) as int) else DigitsValue(digits);
        if MinInt <= v <= MaxInt then Some(v) else None
  }

  /** Decimal digits of a natural number, no leading zeros (Integer.toString). */
  function ShowNat(n: nat): string
  {
    if n < 10 then [('0' as int + n) as char] else ShowNat(n / 10) + [('0' as int + n % 10) as char]
  }

  function ShowInt(n: int): string {
    if n < 0 then "-" + ShowNat(-n) else ShowNat(n)
  }

  lemma {:induction false} ShowNatDigits(n: nat)
    ensures ShowNat(n) != [] && AllDigits(ShowNat(n)) && DigitsValue(ShowNat(n)) == n
  {
    if n >= 10 {
      ShowNatDigits(n / 10);
      var s := ShowNat(n);
      assert s[..|s| - 1] == ShowNat(n / 10);
    }
  }

  /** parseInt reads back every 32-bit integer that toString prints. */
  lemma ParseShow(n: int)
    requires MinInt <= n <= MaxInt
    ensures ParseInt(ShowInt(n)) == Some(n)
  {
    var s := ShowInt(n);
    if n < 0 {
      ShowNatDigits(-n);
      assert s[0] == '-' && s[1..] == ShowNat(-n);
    } else {
      ShowNatDigits(n);
      assert IsDigit(s[0]);
    }
  }

  /** A leading zero adds nothing to the value of a string of digits. */
  lemma {:induction false} LeadingZero(ds: string)
    requires AllDigits(ds)
    ensures AllDigits("0" + ds) && DigitsValue("0" + ds) == DigitsValue(ds)
  {
    if ds != [] {
      var n := |ds| - 1;
      LeadingZero(ds[..n]);
      assert ("0" + ds)[..|"0" + ds| - 1] == "0" + ds[..n];
    }
  }

  /** parseInt accepts leading zeros after the sign: "007" and "+07" read as 7. */
  lemma ParseLeadingZero(ds: string)
    requires ds != [] && AllDigits(ds)
    ensures ParseInt("0" + ds) == ParseInt(ds)
    ensures ParseInt("+" + ds) == ParseInt(ds)
  {
    LeadingZero(ds);
    assert ("+" + ds)[1..] == ds;
  }

  /** Nothing that toString prints is trimmed away. */
  lemma TrimShow(n: int)
    ensures Trim(ShowInt(n)) == ShowInt(n)
  {
    var s := ShowInt(n);
    if n < 0 { ShowNatDigits(-n); } else { ShowNatDigits(n); }
    assert !IsBlank(s[0]) && !IsBlank(s[|s| - 1]);
    assert TrimStart(s) == 0;
  }

  // --------------------------------------------------------------- split

  /** Index of the first `c` in `s`. */
  function IndexOf(s: string, c: char): (i: nat)
    requires c in s
    ensures i < |s| && s[i] == c && c !in s[..i]
  {
    if s[0] == c then 0
    else
      var i := 1 + IndexOf(s[1..], c);
      assert s[..i] == [s[0]] + s[1..][..i - 1];
      i
  }

  /** Every piece between occurrences of `c`, empty pieces included. */
  function SplitAll(s: string, c: char): (pieces: seq<string>)
    ensures |pieces| >= 1
    ensures forall k :: 0 <= k < |pieces| ==> c !in pieces[k]
    decreases |s|
  {
    if c !in s then [s] else var i := IndexOf(s, c); [s[..i]] + SplitAll(s[i + 1..], c)
  }

  /** The pieces glued back together with `c` between them. */
  function Join(pieces: seq<string>, c: char): string
    requires |pieces| >= 1
  {
    if |pieces| == 1 then pieces[0] else pieces[0] + [c] + Join(pieces[1..], c)
  }

  lemma {:induction false} JoinSplitAll(s: string, c: char)
    ensures Join(SplitAll(s, c), c) == s
    decreases |s|
  {
    if c in s {
      var i := IndexOf(s, c);
      JoinSplitAll(s[i + 1..], c);
      assert SplitAll(s, c)[1..] == SplitAll(s[i + 1..], c);
      assert s == s[..i] + [c] + s[i + 1..];
    }
  }

  lemma {:induction false} SplitAllJoin(pieces: seq<string>, c: char)
    requires |pieces| >= 1
    requires forall k :: 0 <= k < |pieces| ==> c !in pieces[k]
    ensures SplitAll(Join(pieces, c), c) == pieces
  {
    if |pieces| > 1 {
      var s := Join(pieces, c);
      var p := pieces[0];
      SplitAllJoin(pieces[1..], c);
      assert s[|p|] == c;
      assert s[..|p|] == p;
      assert IndexOf(s, c) == |p|;
      assert s[|p| + 1..] == Join(pieces[1..], c);
    }
  }

  /** The pieces without the trailing run of empty ones. */
  function DropTrailingEmpty(pieces: seq<string>): (r: seq<string>)
    ensures |r| <= |pieces| && r == pieces[..|r|]
    ensures r != [] ==> r[|r| - 1] != []
    ensures forall k :: |r| <= k < |pieces| ==> pieces[k] == []
  {
    if pieces == [] || pieces[|pieces| - 1] != [] then pieces
    else DropTrailingEmpty(pieces[..|pieces| - 1])
  }

  /** `m` empty strings. */
  function Empties(m: nat): (r: seq<string>)
    ensures |r| == m && forall k :: 0 <= k < m ==> r[k] == []
  {
    seq(m, k => [])
  }

  /**
   * String.split(c) for a one-character separator: separator-free pieces
   * that, padded with the trailing empty pieces Java drops, join back to
   * the string; the whole string when the separator does not occur.
   */
  function Split(s: string, c: char): (r: seq<string>)
    ensures forall k :: 0 <= k < |r| ==> c !in r[k]
    ensures exists m :: |r| + m >= 1 && Join(r + Empties(m), c) == s
    ensures c in s && r != [] ==> r[|r| - 1] != []
    ensures c !in s ==> r == [s]
  {
    if c !in s then
      assert Join([s] + Empties(0), c) == s by { assert [s] + Empties(0) == [s]; }
      [s]
    else
      var pieces := SplitAll(s, c);
      var r := DropTrailingEmpty(pieces);
      JoinSplitAll(s, c);
      assert pieces == r + Empties(|pieces| - |r|);
      r
  }

  /**
   * A parameter split at its first '=' into key and value; without an '='
   * the value is empty (Server.java:368-370).
   */
  function SplitPair(p: string): (kv: (string, string))
    ensures '=' !in kv.0
    ensures '=' in p ==> kv.0 + "=" + kv.1 == p
    ensures '=' !in p ==> kv == (p, "")
  {
    if '=' in p then
      var i := IndexOf(p, '=');
      assert p == p[..i] + "=" + p[i + 1..];
      (p[..i], p[i + 1..])
    else (p, "")
  }
}
