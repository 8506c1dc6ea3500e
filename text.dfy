/** The Python string operations the transformer uses, on `seq<char>`. */
module Text {
  import opened Wrappers

  // ---------------------------------------------------------------------------
  // str.split(sep) and its inverse sep.join(parts)

  /** `sep` occurs in `s` at index `i`. */
  predicate OccursAt(s: string, sep: string, i: nat) {
    i + |sep| <= |s| && s[i..i + |sep|] == sep
  }

  /** `s.find(sep, from)`: the first index at or after `from` where `sep` occurs. */
  function FindFrom(s: string, sep: string, from: nat): (r: Option<nat>)
    requires |sep| > 0
    decreases |s| - from
    ensures r.Some? ==> from <= r.value && OccursAt(s, sep, r.value)
    ensures forall j: nat :: from <= j && (r.None? || j < r.value) ==> !OccursAt(s, sep, j)
  {
    if from + |sep| > |s| then None
    else if s[from..from + |sep|] == sep then Some(from)
    else FindFrom(s, sep, from + 1)
  }

  /** `s.split(sep)` for a non-empty separator: cut at every occurrence, scanning left to right. */
  function Split(s: string, sep: string): (parts: seq<string>)
    requires |sep| > 0
    decreases |s|
    ensures |parts| >= 1
  {
    match FindFrom(s, sep, 0)
    case None => [s]
    case Some(i) => [s[..i]] + Split(s[i + |sep|..], sep)
  }

  /** `sep.join(parts)`. */
  function Join(parts: seq<string>, sep: string): string {
    if |parts| == 0 then ""
    else if |parts| == 1 then parts[0]
    else parts[0] + sep + Join(parts[1..], sep)
  }

  /** Joining the pieces of a split with the same separator gives the original string back. */
  lemma {:induction false} JoinSplit(s: string, sep: string)
    requires |sep| > 0
    ensures Join(Split(s, sep), sep) == s
    decreases |s|
  {
    var r := FindFrom(s, sep, 0);
    if r.Some? {
      var i := r.value;
      var rest := s[i + |sep|..];
      var tail := Split(rest, sep);
      assert Split(s, sep) == [s[..i]] + tail;
      JoinSplit(rest, sep);
      assert ([s[..i]] + tail)[1..] == tail;
      assert Join([s[..i]] + tail, sep) == s[..i] + sep + Join(tail, sep);
      assert s == s[..i] + s[i..i + |sep|] + rest;
    }
  }

  /** No piece of a split contains the separator. */
  lemma {:induction false} SplitPiecesAvoidSeparator(s: string, sep: string)
    requires |sep| > 0
    ensures forall k: nat, j: nat :: k < |Split(s, sep)| ==> !OccursAt(Split(s, sep)[k], sep, j)
    decreases |s|
  {
    match FindFrom(s, sep, 0)
    case None =>
      forall j: nat ensures !OccursAt(s, sep, j) { }
    case Some(i) =>
      var rest := s[i + |sep|..];
      SplitPiecesAvoidSeparator(rest, sep);
      var parts := Split(s, sep);
      assert parts == [s[..i]] + Split(rest, sep);
      forall k: nat, j: nat | k < |parts| ensures !OccursAt(parts[k], sep, j) {
        if k == 0 {
          // an occurrence inside s[..i] would be one in s before i
          assert j < i ==> !OccursAt(s, sep, j);
          assert j + |sep| <= i ==> s[..i][j..j + |sep|] == s[j..j + |sep|];
        } else {
          assert parts[k] == Split(rest, sep)[k - 1];
        }
      }
  }

  /** When the first occurrence of `sep` in `a + sep + b` is the one after `a`, `a` is the first piece. */
  lemma SplitAtFirst(a: string, sep: string, b: string)
    requires |sep| > 0
    requires forall j: nat :: j < |a| ==> !OccursAt(a + sep + b, sep, j)
    ensures Split(a + sep + b, sep) == [a] + Split(b, sep)
  {
    var s := a + sep + b;
    assert s[|a|..|a| + |sep|] == sep;
    assert OccursAt(s, sep, |a|);
    assert FindFrom(s, sep, 0) == Some(|a|);
    assert s[..|a|] == a;
    assert s[|a| + |sep|..] == b;
  }

  /** A character `sep[k]` that is absent from `a` and unlike every earlier character of `sep`
      rules out an occurrence of `sep` starting inside `a`. */
  lemma NoOccurrenceInside(a: string, sep: string, b: string, k: nat)
    requires k < |sep|
    requires sep[k] !in a
    requires forall j :: 0 <= j < k ==> sep[j] != sep[k]
    ensures forall j: nat :: j < |a| ==> !OccursAt(a + sep + b, sep, j)
  {
    var s := a + sep + b;
    forall j: nat | j < |a| ensures !OccursAt(s, sep, j) {
      // the character facing sep[k] differs from it
      if j + k < |a| {
        assert s[j + k] == a[j + k];
      } else {
        assert s[j + k] == sep[j + k - |a|];
      }
      assert j + |sep| <= |s| ==> s[j..j + |sep|][k] == s[j + k];
    }
  }

  /** A string lacking some character of `sep` is not split at all. */
  lemma SplitWithoutSeparator(s: string, sep: string, k: nat)
    requires k < |sep| && sep[k] !in s
    ensures Split(s, sep) == [s]
  {
    forall i: nat | i + |sep| <= |s| ensures !OccursAt(s, sep, i) {
      assert s[i..i + |sep|][k] == s[i + k];
      assert s[i + k] in s;
    }
    assert FindFrom(s, sep, 0).None?;
  }

  // ---------------------------------------------------------------------------
  // Decimal numerals: int(token), str(n) and strftime's %m / %d

  predicate IsDigit(c: char) {
    '0' <= c <= '9'
  }

  predicate AllDigits(s: string) {
    forall i :: 0 <= i < |s| ==> IsDigit(s[i])
  }

  /** A numeral `int()` accepts in this model: one or more ASCII decimal digits. */
  predicate IsDecimal(s: string) {
    |s| > 0 && AllDigits(s)
  }

  function DigitValue(c: char): nat
    requires IsDigit(c)
  {
    c as int - '0' as int
  }

  function DigitChar(d: nat): (c: char)
    requires d < 10
    ensures IsDigit(c) && DigitValue(c) == d
  {
    ('0' as int + d) as char
  }

  function DecimalValue(s: string): nat
    requires AllDigits(s)
  {
    if |s| == 0 then 0 else DecimalValue(s[..|s| - 1]) * 10 + DigitValue(s[|s| - 1])
  }

  /** `int(token)` on a token without spaces: its value, or `None` where Python raises ValueError. */
  function ParseInt(token: string): Option<nat> {
    if IsDecimal(token) then Some(DecimalValue(token)) else None
  }

  /** `str(n)`: the decimal numeral of `n` without leading zeros. */
  function ShowNat(n: nat): (s: string)
    ensures IsDecimal(s)
    ensures |s| == 1 <==> n < 10
  {
    if n < 10 then [DigitChar(n)] else ShowNat(n / 10) + [DigitChar(n % 10)]
  }

  /** The value of a one-digit numeral. */
  lemma OneDigit(s: string)
    requires |s| == 1 && AllDigits(s)
    ensures DecimalValue(s) == DigitValue(s[0])
  {
    assert s[..0] == [];
  }

  /** The value of a two-digit numeral. */
  lemma TwoDigits(s: string)
    requires |s| == 2 && AllDigits(s)
    ensures DecimalValue(s) == DigitValue(s[0]) * 10 + DigitValue(s[1])
  {
    OneDigit(s[..1]);
  }

  /** `int(str(n)) == n`. */
  lemma {:induction false} ShowNatRoundTrip(n: nat)
    ensures ParseInt(ShowNat(n)) == Some(n)
  {
    var s := ShowNat(n);
    if n < 10 {
      assert s[..0] == [];
    } else {
      ShowNatRoundTrip(n / 10);
      assert s[..|s| - 1] == ShowNat(n / 10);
      assert DecimalValue(s) == DecimalValue(ShowNat(n / 10)) * 10 + n % 10;
    }
  }

  /** strftime's `%m` and `%d`: two digits, zero-padded. */
  function Pad2(n: nat): (s: string)
    requires n < 100
    ensures |s| == 2 && IsDecimal(s)
  {
    [DigitChar(n / 10), DigitChar(n % 10)]
  }

  lemma Pad2RoundTrip(n: nat)
    requires n < 100
    ensures ParseInt(Pad2(n)) == Some(n)
  {
    TwoDigits(Pad2(n));
  }

  /** A numeral holds no character but digits, so neither a space nor a dash. */
  lemma DecimalHasNoPunctuation(s: string)
    requires IsDecimal(s)
    ensures ' ' !in s && '-' !in s
  {
    assert forall i :: 0 <= i < |s| ==> s[i] != ' ' && s[i] != '-';
  }

  // ---------------------------------------------------------------------------
  // str.lower and str.endswith, on ASCII

  predicate IsUpper(c: char) {
    'A' <= c <= 'Z'
  }

  /** `c.lower()` for ASCII; other characters are left as they are. */
  function LowerChar(c: char): (l: char)
    ensures !IsUpper(l)
    ensures !IsUpper(c) ==> l == c
  {
    if IsUpper(c) then (c as int + 32) as char else c
  }

  /** `s.lower()` for ASCII. */
  function Lower(s: string): (r: string)
    ensures |r| == |s| && forall i :: 0 <= i < |s| ==> r[i] == LowerChar(s[i])
  {
    seq(|s|, i requires 0 <= i < |s| => LowerChar(s[i]))
  }

  /** `s.endswith(suffix)`, case-sensitive. */
  predicate EndsWith(s: string, suffix: string) {
    |suffix| <= |s| && s[|s| - |suffix|..] == suffix
  }
}
