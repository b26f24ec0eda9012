/** `format` (src/index.js:56-63): group the integer part of a number
    string with a separator, keep the first fraction segment. */
module NumberFormat {
  import opened Pools

  /** The lookahead `(?=(\d{3})+$)`: the rest of the string is one or more
      groups of three digits that reach its end. */
  predicate GroupsOfThree(t: string) {
    |t| > 0 && |t| % 3 == 0 && AllDigits(t)
  }

  /** The pattern `(\d)(?=(\d{3})+$)` matches the character at position i. */
  predicate SeparatorAfter(s: string, i: nat)
    requires i < |s|
  {
    IsDigit(s[i]) && GroupsOfThree(s[i + 1..])
  }

  /** The global replace with "$1" + sep: every matched digit is followed by
      the separator. A match consumes only its digit, so every position is
      tried. */
  function Group(s: string, sep: string): (r: string)
    ensures |r| >= |s|
    ensures s != [] ==> r[0] == s[0]
    ensures sep == [] ==> r == s
  {
    if s == [] then [] else [s[0]] + Inserted(s, sep) + Group(s[1..], sep)
  }

  /** What the replace puts after the first character of s. */
  function Inserted(s: string, sep: string): string
    requires s != []
  {
    if SeparatorAfter(s, 0) then sep else []
  }

  /** `separator || ','`. */
  function SeparatorOrDefault(separator: string): (sep: string)
    ensures |sep| >= 1
    ensures separator == [] ==> sep == ","
  {
    if separator == [] then "," else separator
  }

  /** `s.split(c)` of JavaScript: the pieces between occurrences of c, at
      least one piece (possibly empty). */
  function Split(s: string, c: char): (parts: seq<string>)
    ensures |parts| >= 1
  {
    if s == [] then [[]]
    else
      var rest := Split(s[1..], c);
      if s[0] == c then [[]] + rest else [[s[0]] + rest[0]] + rest[1..]
  }

  /** The pieces put back together with c between them. */
  function Join(parts: seq<string>, c: char): string
    requires |parts| >= 1
  {
    if |parts| == 1 then parts[0] else parts[0] + [c] + Join(parts[1..], c)
  }

  /** format(num, separator) for a number given as a string: the part
      before the first '.' grouped, then '.' and the segment between the
      first and the second '.', when that segment is not empty. */
  function Format(num: string, separator: string): (r: string)
    requires '$' !in separator
    ensures |r| >= |Split(num, '.')[0]|
  {
    var sep := SeparatorOrDefault(separator);
    var arr := Split(num, '.');
    Group(arr[0], sep) + (if |arr| > 1 && arr[1] != [] then "." + arr[1] else "")
  }

  /** Splitting and joining again gives back the string, and no piece
      contains the separator character. */
  lemma {:induction false} SplitJoin(s: string, c: char)
    ensures Join(Split(s, c), c) == s
    ensures forall k :: 0 <= k < |Split(s, c)| ==> c !in Split(s, c)[k]
  {
    if s != [] {
      var rest := Split(s[1..], c);
      SplitJoin(s[1..], c);
      if s[0] == c {
        assert Split(s, c)[1..] == rest;
      } else {
        var parts := Split(s, c);
        if |rest| == 1 {
          assert parts == [[s[0]] + rest[0]];
        } else {
          assert parts[1..] == rest[1..];
          assert Join(rest, c) == rest[0] + [c] + Join(rest[1..], c);
        }
        assert s == [s[0]] + s[1..];
      }
    }
  }

  /** A string without c splits into itself alone. */
  lemma {:induction false} SplitNone(s: string, c: char)
    requires c !in s
    ensures Split(s, c) == [s]
  {
    if s != [] {
      SplitNone(s[1..], c);
      assert [s[0]] + s[1..] == s;
    }
  }

  /** The first piece is everything before the first c. */
  lemma {:induction false} SplitFirst(a: string, c: char, t: string)
    requires c !in a
    ensures Split(a + [c] + t, c) == [a] + Split(t, c)
  {
    if a != [] {
      SplitFirst(a[1..], c, t);
      assert (a + [c] + t)[1..] == a[1..] + [c] + t;
      assert [a[0]] + a[1..] == a;
    } else {
      assert ([c] + t)[1..] == t;
    }
  }

  /** A string of at most three characters gets no separator. */
  lemma {:induction false} GroupShort(s: string, sep: string)
    requires |s| <= 3
    ensures Group(s, sep) == s
  {
    if s != [] {
      GroupShort(s[1..], sep);
      assert !GroupsOfThree(s[1..]);
      assert [s[0]] + s[1..] == s;
    }
  }

  /** Three more digits at the end put a separator after the last character
      of a when that character is a digit, and change nothing else. */
  lemma {:induction false} GroupAppendThree(a: string, t: string, sep: string)
    requires |a| >= 1 && |t| == 3 && AllDigits(t)
    ensures Group(a + t, sep) == Group(a, sep) + DigitMark(a, sep) + t
  {
    if |a| == 1 {
      GroupAppendThreeOne(a, t, sep);
    } else {
      var x, rest := a[0], a[1..];
      var mark := DigitMark(a, sep);
      assert (a + t)[0] == x && (a + t)[1..] == rest + t;
      GroupsOfThreeExtend(rest, t);
      var m := Inserted(a, sep);
      assert Inserted(a + t, sep) == m;
      GroupAppendThree(rest, t, sep);
      assert DigitMark(rest, sep) == mark by {
        assert a[|a| - 1] == rest[|rest| - 1];
      }
      calc {
        Group(a + t, sep);
        [x] + m + Group(rest + t, sep);
        [x] + m + (Group(rest, sep) + mark + t);
        ([x] + m + Group(rest, sep)) + mark + t;
        Group(a, sep) + mark + t;
      }
    }
  }

  /** The separator the grouping puts after the last character of a once
      three digits follow it. */
  function DigitMark(a: string, sep: string): string
    requires a != []
  {
    if IsDigit(a[|a| - 1]) then sep else []
  }

  /** The case of a single character before the three digits. */
  lemma GroupAppendThreeOne(a: string, t: string, sep: string)
    requires |a| == 1 && |t| == 3 && AllDigits(t)
    ensures Group(a + t, sep) == Group(a, sep) + DigitMark(a, sep) + t
  {
    var x := a[0];
    assert (a + t)[0] == x && (a + t)[1..] == t;
    GroupShort(t, sep);
    assert Inserted(a + t, sep) == DigitMark(a, sep);
    assert Group(a, sep) == [x] + Inserted(a, sep) + Group([], sep);
    assert Group(a, sep) == [x];
    assert Group(a + t, sep) == [x] + DigitMark(a, sep) + t;
  }

  /** Three more digits keep a non-empty digit run a run of whole groups
      exactly when it was one. */
  lemma GroupsOfThreeExtend(u: string, t: string)
    requires |u| >= 1 && |t| == 3 && AllDigits(t)
    ensures GroupsOfThree(u + t) <==> GroupsOfThree(u)
  {
    assert |u + t| % 3 == |u| % 3;
    if AllDigits(u) {
      forall i | 0 <= i < |u + t| ensures IsDigit((u + t)[i]) {
        if i >= |u| {
          assert (u + t)[i] == t[i - |u|];
        }
      }
    }
    if AllDigits(u + t) {
      forall i | 0 <= i < |u| ensures IsDigit(u[i]) {
        assert u[i] == (u + t)[i];
      }
    }
  }

  /** Thousands grouping counted from the right: the last three
      characters, preceded by the grouping of the rest and a separator. */
  function ChunkFromRight(s: string, sep: string): string
    decreases |s|
  {
    if |s| <= 3 then s else ChunkFromRight(s[..|s| - 3], sep) + sep + s[|s| - 3..]
  }

  /** On a string of digits the regular-expression replace is thousands
      grouping from the right. */
  lemma {:induction false} GroupIsChunkFromRight(s: string, sep: string)
    requires AllDigits(s)
    ensures Group(s, sep) == ChunkFromRight(s, sep)
    decreases |s|
  {
    if |s| <= 3 {
      GroupShort(s, sep);
    } else {
      var a, t := s[..|s| - 3], s[|s| - 3..];
      assert s == a + t;
      assert AllDigits(a) && AllDigits(t) by {
        forall i | 0 <= i < |a| ensures IsDigit(a[i]) { assert a[i] == s[i]; }
        forall i | 0 <= i < |t| ensures IsDigit(t[i]) { assert t[i] == s[|a| + i]; }
      }
      GroupIsChunkFromRight(a, sep);
      GroupAppendThree(a, t, sep);
    }
  }

  /** Removing every character of `cs` from r. */
  function Without(r: string, cs: string): string {
    if r == [] then []
    else (if r[0] in cs then [] else [r[0]]) + Without(r[1..], cs)
  }

  lemma {:induction false} WithoutAppend(x: string, y: string, cs: string)
    ensures Without(x + y, cs) == Without(x, cs) + Without(y, cs)
  {
    if x != [] {
      assert (x + y)[1..] == x[1..] + y;
      WithoutAppend(x[1..], y, cs);
    } else {
      assert x + y == y;
    }
  }

  lemma {:induction false} WithoutSelf(sep: string)
    ensures Without(sep, sep) == []
  {
    WithoutOnly(sep, sep);
  }

  lemma {:induction false} WithoutOnly(r: string, cs: string)
    requires forall i :: 0 <= i < |r| ==> r[i] in cs
    ensures Without(r, cs) == []
  {
    if r != [] {
      WithoutOnly(r[1..], cs);
    }
  }

  /** Deleting the separator's characters from the grouped string gives
      back the original, when the separator shares no character with it. */
  lemma {:induction false} GroupThenStrip(s: string, sep: string)
    requires forall i :: 0 <= i < |s| ==> s[i] !in sep
    ensures Without(Group(s, sep), sep) == s
  {
    if s != [] {
      var mid := Inserted(s, sep);
      GroupThenStrip(s[1..], sep);
      WithoutAppend([s[0]] + mid, Group(s[1..], sep), sep);
      WithoutAppend([s[0]], mid, sep);
      assert Without(mid, sep) == [] by {
        if mid != [] {
          WithoutSelf(sep);
        }
      }
      assert Without([s[0]], sep) == [s[0]];
      assert [s[0]] + s[1..] == s;
    }
  }

  /** Without a '.', the whole string is the integer part. */
  lemma FormatInteger(num: string, separator: string)
    requires '$' !in separator && '.' !in num
    ensures Format(num, separator) == Group(num, SeparatorOrDefault(separator))
  {
    SplitNone(num, '.');
  }

  /** With a '.', the integer part is grouped and the segment up to the next
      '.' (or the end) follows the dot; an empty segment drops the dot. */
  lemma FormatFraction(whole: string, frac: string, rest: string, separator: string)
    requires '$' !in separator && '.' !in whole && '.' !in frac
    requires rest == [] || rest[0] == '.'
    ensures Format(whole + "." + frac + rest, separator) ==
      Group(whole, SeparatorOrDefault(separator)) + (if frac == [] then [] else "." + frac)
  {
    SplitWholeFrac(whole, frac, rest);
  }

  /** The first two pieces of whole.frac followed by nothing or by a '.'. */
  lemma SplitWholeFrac(whole: string, frac: string, rest: string)
    requires '.' !in whole && '.' !in frac
    requires rest == [] || rest[0] == '.'
    ensures var arr := Split(whole + "." + frac + rest, '.');
      |arr| > 1 && arr[0] == whole && arr[1] == frac
  {
    var s := whole + "." + frac + rest;
    assert s == whole + ['.'] + (frac + rest);
    SplitFirst(whole, '.', frac + rest);
    if rest == [] {
      SplitNone(frac, '.');
      assert frac + rest == frac;
    } else {
      assert rest == [] + ['.'] + rest[1..];
      assert frac + rest == frac + ['.'] + rest[1..];
      SplitFirst(frac, '.', rest[1..]);
    }
  }

  /** "123456" grouped with any separator. */
  lemma GroupSixDigits(sep: string)
    ensures Group("123456", sep) == "123" + sep + "456"
  {
    assert "123456" == "123" + "456";
    assert AllDigits("456");
    GroupAppendThree("123", "456", sep);
    GroupShort("123", sep);
  }

  /** The documented examples format(123456.789) == "123,456.789" and
      format(123456.789, '-') == "123-456.789": with any separator (none
      meaning ','), "123456.789" becomes "123", the separator, then
      "456.789". The input is a parameter bound to the literal rather than
      the literal itself, so that the verifier does not unfold `Format` on
      a constant string eagerly. */
  lemma FormatExample(num: string, separator: string, expected: string)
    requires num == "123456.789" && '$' !in separator
    requires expected == "123" + SeparatorOrDefault(separator) + "456.789"
    ensures Format(num, separator) == expected
  {
    var sep := SeparatorOrDefault(separator);
    assert num == "123456" + "." + "789" + "";
    FormatFraction("123456", "789", "", separator);
    GroupSixDigits(sep);
    assert "123" + sep + "456" + "." + "789" == expected;
  }
}
