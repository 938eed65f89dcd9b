/** The handful of Swift `String` operations the library core relies on:
    `joined(separator:)`, substring search, ordering of strings, and the
    `Int(String)` / `"\(n)"` conversions between integers and decimal text. */
module Text {
  import opened Optional

  /* ---------------------------------------------------------------- joining */

  /** Sum of the lengths of the strings in `xs`. */
  function TotalLength(xs: seq<string>): nat
  {
    if |xs| == 0 then 0 else |xs[0]| + TotalLength(xs[1..])
  }

  /** Swift's `xs.joined(separator: sep)`. */
  function Join(xs: seq<string>, sep: string): (r: string)
    ensures |xs| == 0 ==> r == ""
    ensures |xs| == 1 ==> r == xs[0]
    ensures |xs| > 0 ==> xs[0] <= r
    ensures |xs| > 1 ==> xs[0] + sep <= r
    ensures |r| == TotalLength(xs) + (if |xs| == 0 then 0 else (|xs| - 1) * |sep|)
  {
    if |xs| == 0 then ""
    else if |xs| == 1 then xs[0]
    else xs[0] + sep + Join(xs[1..], sep)
  }

  /** Where name `i` starts in a join: after the first `i` names and `i`
      separators. */
  function NameOffset(xs: seq<string>, sep: string, i: nat): nat
    requires i <= |xs|
  {
    TotalLength(xs[..i]) + i * |sep|
  }

  /** Where the separator after name `i` starts. */
  function SeparatorOffset(xs: seq<string>, sep: string, i: nat): nat
    requires i < |xs|
  {
    NameOffset(xs, sep, i) + |xs[i]|
  }

  /** Where the pieces of a join sit: each name at its offset, and a
      separator after every name but the last. With the length of `Join`
      this determines the whole string. */
  lemma JoinLayout(xs: seq<string>, sep: string)
    ensures forall i :: 0 <= i < |xs| ==> OccursAt(xs[i], Join(xs, sep), NameOffset(xs, sep, i))
    ensures forall i :: 0 <= i < |xs| - 1 ==> OccursAt(sep, Join(xs, sep), SeparatorOffset(xs, sep, i))
  {
    forall i | 0 <= i < |xs|
      ensures OccursAt(xs[i], Join(xs, sep), NameOffset(xs, sep, i))
    {
      JoinNameAt(xs, sep, i);
    }
    forall i | 0 <= i < |xs| - 1
      ensures OccursAt(sep, Join(xs, sep), SeparatorOffset(xs, sep, i))
    {
      JoinSeparatorAt(xs, sep, i);
    }
  }

  lemma {:induction false} JoinNameAt(xs: seq<string>, sep: string, i: nat)
    requires i < |xs|
    ensures OccursAt(xs[i], Join(xs, sep), NameOffset(xs, sep, i))
    decreases |xs|
  {
    var r := Join(xs, sep);
    if i == 0 {
      assert xs[..0] == [];
      assert xs[0] <= r;
    } else {
      var head := xs[0] + sep;
      var rest := Join(xs[1..], sep);
      assert r == head + rest;
      JoinNameAt(xs[1..], sep, i - 1);
      TotalLengthPrefix(xs, i);
      assert xs[1..][i - 1] == xs[i];
      OccursShifted(xs[i], rest, head, NameOffset(xs[1..], sep, i - 1));
      assert i * |sep| == (i - 1) * |sep| + |sep|;
      assert NameOffset(xs, sep, i) == |head| + NameOffset(xs[1..], sep, i - 1);
    }
  }

  lemma {:induction false} JoinSeparatorAt(xs: seq<string>, sep: string, i: nat)
    requires i < |xs| - 1
    ensures OccursAt(sep, Join(xs, sep), SeparatorOffset(xs, sep, i))
    decreases |xs|
  {
    var r := Join(xs, sep);
    var head := xs[0] + sep;
    var rest := Join(xs[1..], sep);
    assert r == head + rest;
    if i == 0 {
      assert xs[..0] == [];
      assert r[|xs[0]|..|xs[0]| + |sep|] == sep;
    } else {
      JoinSeparatorAt(xs[1..], sep, i - 1);
      TotalLengthPrefix(xs, i);
      assert xs[1..][i - 1] == xs[i];
      OccursShifted(sep, rest, head, SeparatorOffset(xs[1..], sep, i - 1));
      assert i * |sep| == (i - 1) * |sep| + |sep|;
    }
  }

  /** Joining one more name appends the separator and the name. */
  lemma {:induction false} JoinSnoc(xs: seq<string>, x: string, sep: string)
    requires |xs| > 0
    ensures Join(xs + [x], sep) == Join(xs, sep) + sep + x
    decreases |xs|
  {
    if |xs| == 1 {
      assert (xs + [x])[1..] == [x];
    } else {
      assert (xs + [x])[1..] == xs[1..] + [x];
      JoinSnoc(xs[1..], x, sep);
    }
  }

  /** The first `i` lengths of `xs` are the first length plus the next `i - 1`. */
  lemma TotalLengthPrefix(xs: seq<string>, i: nat)
    requires 0 < i <= |xs|
    ensures TotalLength(xs[..i]) == |xs[0]| + TotalLength(xs[1..][..i - 1])
  {
    assert xs[..i][1..] == xs[1..][..i - 1];
  }

  /** An occurrence survives putting text in front, shifted by its length. */
  lemma OccursShifted(needle: string, hay: string, front: string, k: nat)
    requires OccursAt(needle, hay, k)
    ensures OccursAt(needle, front + hay, |front| + k)
  {
    assert (front + hay)[|front| + k..|front| + k + |needle|] == hay[k..k + |needle|];
  }

  /* ------------------------------------------------------- substring search */

  /** `needle` occurs in `hay` starting at position `i`. */
  predicate OccursAt(needle: string, hay: string, i: nat)
  {
    i + |needle| <= |hay| && hay[i..i + |needle|] == needle
  }

  /** `needle` occurs somewhere in `hay` (the empty string occurs everywhere). */
  predicate IsSubstring(needle: string, hay: string)
    decreases |hay|
  {
    needle <= hay || (|hay| > 0 && IsSubstring(needle, hay[1..]))
  }

  /** The recursive search agrees with "occurs at some position", in both directions. */
  lemma {:induction false} SubstringIffOccurs(needle: string, hay: string)
    ensures IsSubstring(needle, hay) <==> exists i: nat :: OccursAt(needle, hay, i)
    decreases |hay|
  {
    if needle <= hay {
      assert OccursAt(needle, hay, 0);
    } else if |hay| > 0 {
      SubstringIffOccurs(needle, hay[1..]);
      if IsSubstring(needle, hay[1..]) {
        var i: nat :| OccursAt(needle, hay[1..], i);
        forall k | 0 <= k < |needle|
          ensures hay[i + 1 + k] == needle[k]
        {
          assert needle[k] == hay[1..][i..i + |needle|][k];
        }
        assert hay[i + 1..i + 1 + |needle|] == needle;
        assert OccursAt(needle, hay, i + 1);
      } else {
        forall i: nat | OccursAt(needle, hay, i)
          ensures false
        {
          if i > 0 {
            assert hay[1..][i - 1..i - 1 + |needle|] == hay[i..i + |needle|];
            assert OccursAt(needle, hay[1..], i - 1);
          }
        }
      }
    } else {
      assert forall i: nat :: !OccursAt(needle, hay, i);
    }
  }

  /** Whatever contains a string contains each of its prefixes. */
  lemma {:induction false} SubstringOfPrefix(shorter: string, needle: string, hay: string)
    requires shorter <= needle
    requires IsSubstring(needle, hay)
    ensures IsSubstring(shorter, hay)
    decreases |hay|
  {
    if !(needle <= hay) {
      SubstringOfPrefix(shorter, needle, hay[1..]);
    }
  }

  /** `s` with every character passed through `fold`. */
  function Fold(s: string, fold: char -> char): string
  {
    seq(|s|, i requires 0 <= i < |s| => fold(s[i]))
  }

  /** Folding keeps prefixes. */
  lemma FoldPrefix(a: string, b: string, fold: char -> char)
    requires a <= b
    ensures Fold(a, fold) <= Fold(b, fold)
  {
  }

  /** Swift's `hay.localizedCaseInsensitiveContains(needle)`, with the
      locale's case folding abstracted as the character map `fold`. */
  predicate ContainsIgnoringCase(hay: string, needle: string, fold: char -> char)
  {
    IsSubstring(Fold(needle, fold), Fold(hay, fold))
  }

  /* ---------------------------------------------------------------- ordering */

  /** Lexicographic order on strings, character by character. */
  predicate LexLess(a: string, b: string)
    decreases |a|
  {
    if |a| == 0 then |b| > 0
    else if |b| == 0 then false
    else if a[0] < b[0] then true
    else if b[0] < a[0] then false
    else LexLess(a[1..], b[1..])
  }

  lemma {:induction false} LexIrreflexive(a: string)
    ensures !LexLess(a, a)
    decreases |a|
  {
    if |a| > 0 {
      LexIrreflexive(a[1..]);
    }
  }

  lemma {:induction false} LexTransitive(a: string, b: string, c: string)
    requires LexLess(a, b) && LexLess(b, c)
    ensures LexLess(a, c)
    decreases |a|
  {
    if |a| > 0 && |b| > 0 && |c| > 0 && a[0] == b[0] && b[0] == c[0] {
      LexTransitive(a[1..], b[1..], c[1..]);
    }
  }

  lemma {:induction false} LexTotal(a: string, b: string)
    requires a != b
    ensures LexLess(a, b) || LexLess(b, a)
    decreases |a|
  {
    if |a| > 0 && |b| > 0 && a[0] == b[0] {
      assert a == [a[0]] + a[1..];
      assert b == [b[0]] + b[1..];
      LexTotal(a[1..], b[1..]);
    }
  }

  /** Every element is strictly smaller than every later one. */
  ghost predicate StrictlyAscending(xs: seq<string>)
  {
    forall i, j :: 0 <= i < j < |xs| ==> LexLess(xs[i], xs[j])
  }

  /** Inserts `x` into a strictly ascending list unless it is already there. */
  function InsertUnique(x: string, xs: seq<string>): (r: seq<string>)
    requires StrictlyAscending(xs)
    ensures StrictlyAscending(r)
    ensures forall y :: y in r <==> y == x || y in xs
    decreases |xs|
  {
    if |xs| == 0 then [x]
    else if x == xs[0] then xs
    else if LexLess(x, xs[0]) then
      assert forall j :: 0 < j < |xs| ==> LexLess(x, xs[j]) by {
        forall j | 0 < j < |xs| ensures LexLess(x, xs[j]) {
          LexTransitive(x, xs[0], xs[j]);
        }
      }
      [x] + xs
    else
      LexTotal(x, xs[0]);
      var rest := InsertUnique(x, xs[1..]);
      assert forall y :: y in rest ==> LexLess(xs[0], y);
      [xs[0]] + rest
  }

  /** The distinct elements of `xs`, in strictly ascending order: Swift's
      `Set(xs).sorted()`. */
  function SortedDistinct(xs: seq<string>): (r: seq<string>)
    ensures StrictlyAscending(r)
    ensures forall y :: y in r <==> y in xs
    decreases |xs|
  {
    if |xs| == 0 then []
    else InsertUnique(xs[|xs| - 1], SortedDistinct(xs[..|xs| - 1]))
  }

  /* ----------------------------------------------------- integers as text */

  predicate IsDigit(c: char)
  {
    '0' <= c <= '9'
  }

  predicate AllDigits(s: string)
  {
    forall i :: 0 <= i < |s| ==> IsDigit(s[i])
  }

  /** The number written by the decimal digits `s` (leading zeros allowed). */
  function DigitsValue(s: string): nat
    requires AllDigits(s)
    decreases |s|
  {
    if |s| == 0 then 0
    else 10 * DigitsValue(s[..|s| - 1]) + ((s[|s| - 1] as int) - ('0' as int))
  }

  function DigitChar(d: nat): (c: char)
    requires d < 10
    ensures IsDigit(c) && (c as int) - ('0' as int) == d
  {
    (('0' as int) + d) as char
  }

  /** Decimal digits without a leading zero (other than "0" itself). */
  predicate CanonicalNat(d: string)
  {
    |d| > 0 && AllDigits(d) && (d[0] == '0' ==> |d| == 1)
  }

  /** The canonical decimal form of an integer: no plus sign, no leading
      zero, and no "-0". */
  predicate CanonicalInt(s: string)
  {
    |s| > 0 &&
    if s[0] == '-' then CanonicalNat(s[1..]) && s[1..] != "0" else CanonicalNat(s)
  }

  /** Decimal rendering of a natural number, without leading zeros. */
  function NatToString(n: nat): (r: string)
    ensures CanonicalNat(r)
    ensures DigitsValue(r) == n
    decreases n
  {
    if n < 10 then [DigitChar(n)]
    else
      var prefix := NatToString(n / 10);
      var r := prefix + [DigitChar(n % 10)];
      assert r[..|r| - 1] == prefix;
      r
  }

  /** Swift's string interpolation `"\(n)"` of an `Int`. */
  function IntToString(n: int): (r: string)
    ensures CanonicalInt(r)
    ensures r[0] == '-' <==> n < 0
  {
    if n < 0 then
      var r := "-" + NatToString(-n);
      assert r[1..] == NatToString(-n);
      r
    else NatToString(n)
  }

  predicate IsSign(c: char)
  {
    c == '+' || c == '-'
  }

  /** Swift's failable `Int(s)`: an optional sign followed by at least one
      decimal digit, and nothing else. */
  function ParseInt(s: string): (r: Option<int>)
    ensures r.Some? ==> |s| > 0
    ensures (exists i :: 0 <= i < |s| && !IsDigit(s[i]) && !(i == 0 && IsSign(s[i]))) ==> r.None?
    ensures |s| > 0 && AllDigits(s) ==> r == Some(DigitsValue(s))
    ensures |s| == 1 && IsSign(s[0]) ==> r.None?
    ensures |s| > 1 && IsSign(s[0]) && AllDigits(s[1..]) ==>
              r == Some((if s[0] == '-' then -1 else 1) * DigitsValue(s[1..]))
  {
    if |s| == 0 then None
    else if IsSign(s[0]) then
      var digits := s[1..];
      if |digits| > 0 && AllDigits(digits) then
        var magnitude: int := DigitsValue(digits);
        Some(if s[0] == '-' then -magnitude else magnitude)
      else
        assert forall i :: 0 < i < |s| ==> s[i] == digits[i - 1];
        None
    else if AllDigits(s) then Some(DigitsValue(s))
    else None
  }

  /** Parsing the rendering of any integer gives the integer back. */
  lemma ParseRendersBack(n: int)
    ensures ParseInt(IntToString(n)) == Some(n)
  {
    if n < 0 {
      var s := IntToString(n);
      assert s[1..] == NatToString(-n);
    } else {
      assert !IsSign(IntToString(n)[0]);
    }
  }

  /** A number written with a non-zero leading digit is at least 1. */
  lemma {:induction false} LeadingDigitPositive(d: string)
    requires CanonicalNat(d) && d != "0"
    ensures DigitsValue(d) >= 1
    decreases |d|
  {
    if |d| > 1 {
      LeadingDigitPositive(d[..|d| - 1]);
    }
  }

  /** Canonical digits are the rendering of their own value. */
  lemma {:induction false} CanonicalNatRenders(d: string)
    requires CanonicalNat(d)
    ensures NatToString(DigitsValue(d)) == d
    decreases |d|
  {
    if |d| > 1 {
      var init := d[..|d| - 1];
      assert CanonicalNat(init);
      LeadingDigitPositive(init);
      CanonicalNatRenders(init);
      var n := DigitsValue(d);
      assert n / 10 == DigitsValue(init) && n % 10 == (d[|d| - 1] as int) - ('0' as int);
      assert d == init + [d[|d| - 1]];
    }
  }

  /** The converse of `ParseRendersBack`: a string in canonical decimal form
      parses, and is exactly the rendering of the integer it denotes. */
  lemma CanonicalIsRendering(s: string)
    requires CanonicalInt(s)
    ensures ParseInt(s).Some? && IntToString(ParseInt(s).value) == s
  {
    if s[0] == '-' {
      CanonicalNatRenders(s[1..]);
      LeadingDigitPositive(s[1..]);
      assert s == "-" + s[1..];
    } else {
      CanonicalNatRenders(s);
    }
  }
}
