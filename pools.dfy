/** Digit pools: the ordered characters that name the digits of a base,
    and the character-to-digit map the decoder builds from a pool. */
module Pools {

  const DIGITS: string := "0123456789"
  const UPPER: string := "ABCDEFGHIJKLMNOPQRSTUVWXYZ"
  const LOWER: string := "abcdefghijklmnopqrstuvwxyz"

  /** The default pool `STR_62`: "0-9A-Za-z" in that order, base 62. */
  const STR_62: string := DIGITS + UPPER + LOWER

  /** An ASCII decimal digit: `\d` of a JavaScript regular expression, and
      a character the big-integer parser accepts in a decimal string. */
  predicate IsDigit(c: char) {
    '0' <= c <= '9'
  }

  predicate AllDigits(s: string) {
    forall i :: 0 <= i < |s| ==> IsDigit(s[i])
  }

  /** The decoder's map is filled from this many pool positions. */
  const MAP_SLOTS: nat := 62

  /** `pool || STR_62`: an omitted (empty) pool means the default pool. */
  function EffectivePool(pool: string): (p: string)
    ensures |p| >= 1
    ensures pool == [] ==> |p| == 62
  {
    if pool == [] then STR_62 else pool
  }

  /** No character occurs twice in the pool. */
  ghost predicate Distinct(p: string) {
    forall i, j :: 0 <= i < j < |p| ==> p[i] != p[j]
  }

  /** The map after the first k rounds of the map-building loop: round i
      stores `map[p[i]] = i`, a later position overwriting an earlier one
      for a repeated character. Rounds past the end of the pool write the
      key "undefined", which no single input character can hit, so they
      leave the character map as it was. */
  function PoolMap(p: string, k: nat): map<char, nat> {
    if k == 0 then map[]
    else if k - 1 < |p| then PoolMap(p, k - 1)[p[k - 1] := k - 1]
    else PoolMap(p, k - 1)
  }

  /** The character-to-digit map of a decoding call. */
  function DigitMap(p: string): map<char, nat> {
    PoolMap(p, MAP_SLOTS)
  }

  /** Every character of `s` has a digit value under the pool. */
  predicate Decodable(s: string, p: string) {
    forall i :: 0 <= i < |s| ==> s[i] in DigitMap(p)
  }

  /** The digit value of each character of `s`. */
  function DigitValues(s: string, p: string): (ds: seq<nat>)
    requires Decodable(s, p)
    ensures |ds| == |s|
  {
    seq(|s|, i requires 0 <= i < |s| => DigitMap(p)[s[i]])
  }

  /** After k rounds, a character is mapped exactly when it occurs among
      the first k pool positions, and it is mapped to its LAST occurrence
      there. */
  lemma {:induction false} PoolMapLastOccurrence(p: string, k: nat, c: char)
    ensures c in PoolMap(p, k) <==> exists i :: 0 <= i < k && i < |p| && p[i] == c
    ensures c in PoolMap(p, k) ==>
      var v := PoolMap(p, k)[c];
      v < k && v < |p| && p[v] == c &&
      forall j :: v < j < k && j < |p| ==> p[j] != c
  {
    if k > 0 {
      PoolMapLastOccurrence(p, k - 1, c);
      if k - 1 < |p| && p[k - 1] == c {
        assert PoolMap(p, k)[c] == k - 1;
      }
    }
  }

  /** In a pool without repeats, position i (among the first 62) maps
      back to i. */
  lemma PoolIndex(p: string, i: nat)
    requires Distinct(p)
    requires i < |p| && i < MAP_SLOTS
    ensures p[i] in DigitMap(p) && DigitMap(p)[p[i]] == i
  {
    PoolMapLastOccurrence(p, MAP_SLOTS, p[i]);
  }

  /** Decoding accepts exactly the characters among the first 62 of the
      pool. */
  lemma DecodableChars(s: string, p: string)
    ensures Decodable(s, p) <==> forall i :: 0 <= i < |s| ==> s[i] in p[..if |p| < MAP_SLOTS then |p| else MAP_SLOTS]
  {
    var w := if |p| < MAP_SLOTS then |p| else MAP_SLOTS;
    forall i | 0 <= i < |s|
      ensures s[i] in DigitMap(p) <==> s[i] in p[..w]
    {
      PoolMapLastOccurrence(p, MAP_SLOTS, s[i]);
      if s[i] in p[..w] {
        var j :| 0 <= j < w && p[..w][j] == s[i];
        assert p[j] == s[i];
      }
    }
  }

  /** Each digit value is a position of the pool. */
  lemma DigitValuesBelow(s: string, p: string, i: nat)
    requires Decodable(s, p) && i < |s|
    ensures DigitValues(s, p)[i] < |p| && p[DigitValues(s, p)[i]] == s[i]
  {
    PoolMapLastOccurrence(p, MAP_SLOTS, s[i]);
  }

  /** The character code of each default-pool position: digits from 48,
      upper-case letters from 65, lower-case letters from 97. */
  function Base62Code(i: nat): nat {
    if i < 10 then 48 + i else if i < 36 then 55 + i else 61 + i
  }

  lemma DigitCodes()
    ensures forall i :: 0 <= i < 10 ==> DIGITS[i] as int == 48 + i
  {
  }

  lemma UpperCodes()
    ensures forall i :: 0 <= i < 26 ==> UPPER[i] as int == 65 + i
  {
  }

  lemma LowerCodes()
    ensures forall i :: 0 <= i < 26 ==> LOWER[i] as int == 97 + i
  {
  }

  /** Without an explicit pool both conversions work in base 62 over
      "0-9A-Za-z", and that pool has no repeated character. */
  lemma DefaultPool()
    ensures EffectivePool([]) == STR_62 && |STR_62| == 62
    ensures forall i :: 0 <= i < 62 ==> STR_62[i] as int == Base62Code(i)
    ensures Distinct(STR_62)
  {
    DigitCodes();
    UpperCodes();
    LowerCodes();
    assert forall i :: 0 <= i < 62 ==> STR_62[i] as int == Base62Code(i) by {
      forall i | 0 <= i < 62 ensures STR_62[i] as int == Base62Code(i) {
        if i < 10 {
          assert STR_62[i] == DIGITS[i];
        } else if i < 36 {
          assert STR_62[i] == UPPER[i - 10];
        } else {
          assert STR_62[i] == LOWER[i - 36];
        }
      }
    }
    forall i, j | 0 <= i < j < 62 ensures STR_62[i] != STR_62[j] {
      assert STR_62[i] as int == Base62Code(i) < Base62Code(j) == STR_62[j] as int;
    }
  }

  /** The decimal digit characters form a pool without repeats whose
      positions are the digit values. */
  lemma DecimalPool()
    ensures |DIGITS| == 10 && Distinct(DIGITS)
    ensures forall i :: 0 <= i < 10 ==> DIGITS[i] as int == 48 + i
  {
    DigitCodes();
  }
}
