/** The two conversions of src/index.js: `toAny` (decimal string to a
    string over a digit pool) and `fromAny` (back to a decimal string). */
module BaseConvert {
  import opened Numerals
  import opened Pools

  /** The characters `toAny` emits for the value n over pool p: each step
      takes n mod |p|, continues with n div |p| while that is > 0, and puts
      the digit of this step in front of those of the later steps. */
  function Encode(n: nat, p: string): (r: string)
    requires |p| >= 2
    ensures |r| >= 1
    ensures forall i :: 0 <= i < |r| ==> r[i] in p
    ensures n == 0 ==> r == [p[0]]
    decreases n
  {
    var b := |p|;
    if n / b > 0 then Encode(n / b, p) + [p[n % b]] else [p[n % b]]
  }

  /** Unfolding of `Encode`, one step of `toAny`: the character of n mod |p| goes after those of
      n div |p|, which are emitted only when n div |p| > 0. */
  lemma EncodeStep(n: nat, p: string)
    requires |p| >= 2
    ensures Encode(n, p) == (if n / |p| > 0 then Encode(n / |p|, p) else []) + [p[n % |p|]]
  {
  }

  /** The library's canonical decimal rendering `toString()`: the
      numeral of n over the pool "0123456789". */
  function DecimalString(n: nat): (r: string)
    ensures |r| >= 1 && forall i :: 0 <= i < |r| ==> r[i] in DIGITS
    ensures n == 0 ==> r == "0"
  {
    Encode(n, DIGITS)
  }

  /** A string the library parses as a non-negative decimal integer. */
  predicate IsDecimal(s: string) {
    |s| >= 1 && AllDigits(s)
  }

  /** The decimal digit values of `s`. */
  function DecimalDigits(s: string): (ds: seq<nat>)
    requires IsDecimal(s)
    ensures |ds| == |s| && DigitsBelow(ds, 10)
  {
    seq(|s|, i requires 0 <= i < |s| => (s[i] as int - '0' as int) as nat)
  }

  /** `BigInt(s)` for a decimal string `s` (leading zeros allowed). */
  function DecimalValue(s: string): (v: nat)
    requires IsDecimal(s)
    ensures v < Pow(10, |s|)
    ensures s[0] != '0' ==> v >= Pow(10, |s| - 1)
  {
    var ds := DecimalDigits(s);
    ValueBound(ds, 10);
    if s[0] != '0' then ValueLeadingDigit(ds, 10); Value(ds, 10) else Value(ds, 10)
  }

  /** What `toAny(number10, pool)` returns. */
  function ToAnyOf(number10: string, pool: string): string
    requires IsDecimal(number10) && |EffectivePool(pool)| >= 2
  {
    Encode(DecimalValue(number10), EffectivePool(pool))
  }

  /** What `fromAny(numberAny, pool)` returns: the decimal rendering of the
      positional sum of the characters' digit values. */
  function FromAnyOf(numberAny: string, pool: string): string
    requires Decodable(numberAny, EffectivePool(pool))
  {
    var p := EffectivePool(pool);
    DecimalString(Value(DigitValues(numberAny, p), |p|))
  }

  /** toAny (src/index.js:104-121). The recursive `_cal` is a loop whose
      body runs at least once, as the first call of `_cal` does not test
      the value. */
  method ToAny(number10: string, pool: string) returns (r: string)
    requires IsDecimal(number10)
    requires |EffectivePool(pool)| >= 2
    ensures r == ToAnyOf(number10, pool)
    ensures |r| >= 1
  {
    var value: nat := DecimalValue(number10);
    var p := EffectivePool(pool);
    var ret: string := [];
    var decimal: nat := |p|;
    ghost var n := value;
    var more := true;
    while more
      invariant more ==> Encode(value, p) + ret == Encode(n, p)
      invariant !more ==> ret == Encode(n, p)
      decreases if more then value + 1 else 0
    {
      EncodeStep(value, p);
      DivMod(value, decimal);
      var y := value % decimal;
      value := value / decimal;
      ret := [p[y]] + ret;
      more := value > 0;
    }
    r := ret;
  }

  /** fromAny (src/index.js:130-153): fill the character map from the
      first 62 pool positions, then add up digit * base^(len-index-1). */
  method FromAny(numberAny: string, pool: string) returns (r: string)
    requires Decodable(numberAny, EffectivePool(pool))
    ensures r == FromAnyOf(numberAny, pool)
  {
    var bigInt: nat := 0;
    var len := |numberAny|;
    var p := EffectivePool(pool);
    var decimal: nat := |p|;
    var m: map<char, nat> := map[];
    var index := 0;
    while index < MAP_SLOTS
      invariant index <= MAP_SLOTS
      invariant m == PoolMap(p, index)
    {
      if index < |p| {
        m := m[p[index] := index];
      }
      index := index + 1;
    }
    ghost var ds := DigitValues(numberAny, p);
    index := 0;
    while index < len
      invariant index <= len
      invariant bigInt + Value(ds[index..], decimal) == Value(ds, decimal)
    {
      var pos := numberAny[index];
      var pos10 := m[pos];
      assert pos10 == ds[index];
      ValueSuffix(ds, index, decimal);
      MulMonotone(0, pos10, Pow(decimal, len - index - 1));
      bigInt := bigInt + pos10 * Pow(decimal, len - index - 1);
      index := index + 1;
    }
    r := DecimalString(bigInt);
  }

  /** Reading `toAny`'s output back as a base-|p| numeral, each character
      standing for its pool position, gives the value again: the digits
      come out most significant first. */
  lemma {:induction false} EncodeValue(n: nat, p: string)
    requires 2 <= |p| <= MAP_SLOTS && Distinct(p)
    ensures Decodable(Encode(n, p), p)
    ensures Value(DigitValues(Encode(n, p), p), |p|) == n
    decreases n
  {
    var b := |p|;
    DivMod(n, b);
    PoolIndex(p, n % b);
    if n / b > 0 {
      var front := Encode(n / b, p);
      EncodeValue(n / b, p);
      var r := Encode(n, p);
      assert r == front + [p[n % b]];
      assert DigitValues(r, p) == DigitValues(front, p) + [n % b];
      ValueAppend(DigitValues(front, p), n % b, b);
    } else {
      assert DigitValues(Encode(n, p), p) == [n % b];
    }
  }

  /** The first character is `p[0]` exactly when the value is 0. */
  lemma {:induction false} EncodeLeading(n: nat, p: string)
    requires |p| >= 2 && Distinct(p)
    ensures Encode(n, p)[0] == p[0] <==> n == 0
    decreases n
  {
    var b := |p|;
    if n / b > 0 {
      EncodeLeading(n / b, p);
      assert Encode(n, p)[0] == Encode(n / b, p)[0];
    } else {
      assert Encode(n, p) == [p[n % b]];
    }
  }

  /** A positive value takes k characters exactly when b^(k-1) <= n < b^k,
      that is floor(log_b n) + 1 characters. */
  lemma {:induction false} EncodeLength(n: nat, p: string)
    requires |p| >= 2
    ensures n > 0 ==> Pow(|p|, |Encode(n, p)| - 1) <= n < Pow(|p|, |Encode(n, p)|)
    ensures n < |p| ==> |Encode(n, p)| == 1
    decreases n
  {
    var b := |p|;
    var k := |Encode(n, p)|;
    DivMod(n, b);
    EncodeStep(n, p);
    if n < b {
      DivModUnique(n, b, 0, n);
    }
    if n / b > 0 {
      var q := n / b;
      EncodeLength(q, p);
      assert k == |Encode(q, p)| + 1;
      ScaleBounds(n, b, q, n % b, k - 2);
    } else {
      assert Encode(n, p) == [p[n % b]];
      assert Pow(b, 1) == b * Pow(b, 0);
    }
  }

  /** A decodable string with no superfluous leading `p[0]` is exactly what
      `toAny` emits for its value: numerals over a pool are unique. */
  lemma {:induction false} EncodeOfValue(s: string, p: string)
    requires 2 <= |p|
    requires Decodable(s, p) && |s| >= 1
    requires s[0] != p[0] || |s| == 1
    ensures Encode(Value(DigitValues(s, p), |p|), p) == s
    decreases |s|
  {
    var b := |p|;
    var ds := DigitValues(s, p);
    var n := Value(ds, b);
    var last := |s| - 1;
    DigitValuesBelow(s, p, last);
    if |s| == 1 {
      assert ds[1..] == [];
      assert n == ds[0] * Pow(b, 0) + Value(ds[1..], b) == ds[0];
      DivModUnique(n, b, 0, n);
    } else {
      var t := s[..last];
      var dt := DigitValues(t, p);
      assert ds == dt + [ds[last]];
      ValueAppend(dt, ds[last], b);
      DivModUnique(n, b, Value(dt, b), ds[last]);
      assert s[0] != p[0];
      DigitValuesBelow(s, p, 0);
      assert dt[0] == ds[0] != 0;
      ValueLeadingDigit(dt, b);
      EncodeOfValue(t, p);
      assert s == t + [s[last]];
    }
  }

  /** The decimal rendering is canonical: digits only, no leading '0'
      except for the value 0 itself, which is "0", and parsing it gives the
      value back. */
  lemma DecimalStringCanonical(n: nat)
    ensures IsDecimal(DecimalString(n))
    ensures DecimalString(n)[0] == '0' <==> n == 0
    ensures n == 0 ==> DecimalString(n) == "0"
    ensures DecimalValue(DecimalString(n)) == n
  {
    DecimalPool();
    var r := DecimalString(n);
    forall i | 0 <= i < |r| ensures '0' <= r[i] <= '9' {
      var j :| 0 <= j < |DIGITS| && DIGITS[j] == r[i];
    }
    EncodeLeading(n, DIGITS);
    EncodeValue(n, DIGITS);
    DecimalDigitsArePositions(r);
  }

  /** A decimal digit's value is its position in "0123456789". */
  lemma DecimalDigitsArePositions(s: string)
    requires IsDecimal(s)
    ensures Decodable(s, DIGITS) && DigitValues(s, DIGITS) == DecimalDigits(s)
  {
    DecimalPool();
    forall i | 0 <= i < |s|
      ensures s[i] in DigitMap(DIGITS) && DigitMap(DIGITS)[s[i]] == DecimalDigits(s)[i]
    {
      var d := s[i] as int - '0' as int;
      assert DIGITS[d] == s[i];
      PoolIndex(DIGITS, d);
    }
  }

  /** A decimal string without superfluous leading zeros is the canonical
      rendering of its own value. */
  lemma DecimalStringOfValue(s: string)
    requires IsDecimal(s) && (s[0] != '0' || |s| == 1)
    ensures DecimalString(DecimalValue(s)) == s
  {
    DecimalPool();
    DecimalDigitsArePositions(s);
    EncodeOfValue(s, DIGITS);
  }

  /** `toAny` never returns the empty string; for the value 0 it returns
      the single character `pool[0]`; otherwise its first character is not
      `pool[0]`; and all its characters come from the pool. */
  lemma ToAnyShape(number10: string, pool: string)
    requires IsDecimal(number10) && |EffectivePool(pool)| >= 2
    requires Distinct(EffectivePool(pool))
    ensures var r, p := ToAnyOf(number10, pool), EffectivePool(pool);
      |r| >= 1 && (forall i :: 0 <= i < |r| ==> r[i] in p) &&
      (DecimalValue(number10) == 0 <==> r == [p[0]]) &&
      (DecimalValue(number10) == 0 <==> r[0] == p[0])
  {
    EncodeLeading(DecimalValue(number10), EffectivePool(pool));
  }

  /** `fromAny` of the empty string is "0": the sum starts at 0. */
  lemma FromAnyEmpty(pool: string)
    ensures FromAnyOf([], pool) == "0"
  {
  }

  /** Leading `pool[0]` characters do not change what `fromAny` returns. */
  lemma FromAnyLeadingZeros(k: nat, numberAny: string, pool: string)
    requires Decodable(numberAny, EffectivePool(pool))
    requires Distinct(EffectivePool(pool))
    ensures var p := EffectivePool(pool);
      Decodable(seq(k, _ => p[0]) + numberAny, p) &&
      FromAnyOf(seq(k, _ => p[0]) + numberAny, pool) == FromAnyOf(numberAny, pool)
  {
    var p := EffectivePool(pool);
    var s := seq(k, _ => p[0]) + numberAny;
    PoolIndex(p, 0);
    assert Decodable(s, p);
    assert DigitValues(s, p) == seq(k, _ => 0) + DigitValues(numberAny, p);
    ValueLeadingZeros(k, DigitValues(numberAny, p), |p|);
  }

  /** Round trip: for a pool of 2 to 62 distinct characters, `fromAny`
      undoes `toAny`, giving the canonical decimal form of the input. */
  lemma RoundTrip(number10: string, pool: string)
    requires IsDecimal(number10)
    requires 2 <= |EffectivePool(pool)| <= MAP_SLOTS && Distinct(EffectivePool(pool))
    ensures Decodable(ToAnyOf(number10, pool), EffectivePool(pool))
    ensures FromAnyOf(ToAnyOf(number10, pool), pool) == DecimalString(DecimalValue(number10))
    ensures number10[0] != '0' || |number10| == 1 ==> FromAnyOf(ToAnyOf(number10, pool), pool) == number10
  {
    EncodeValue(DecimalValue(number10), EffectivePool(pool));
    if number10[0] != '0' || |number10| == 1 {
      DecimalStringOfValue(number10);
    }
  }

  /** The other round trip: a string over the pool without superfluous
      leading `pool[0]` characters comes back from `toAny` unchanged. */
  lemma RoundTripBack(numberAny: string, pool: string)
    requires |numberAny| >= 1 && (numberAny[0] != EffectivePool(pool)[0] || |numberAny| == 1)
    requires 2 <= |EffectivePool(pool)|
    requires Decodable(numberAny, EffectivePool(pool))
    ensures IsDecimal(FromAnyOf(numberAny, pool))
    ensures ToAnyOf(FromAnyOf(numberAny, pool), pool) == numberAny
  {
    var p := EffectivePool(pool);
    var v := Value(DigitValues(numberAny, p), |p|);
    DecimalStringCanonical(v);
    EncodeOfValue(numberAny, p);
  }
}
