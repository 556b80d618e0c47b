/**
 * The arXiv identifiers the scraper derives: the id at the end of a feed
 * entry's link, the ten-character prefix of an API result's short id, and
 * the numeric comparison `is_earlier` of two ids.
 */
module ArxivIds {
  import opened Options
  import opened Strings

  /** `link.split("/")[-1]`: the id at the end of a feed entry's link. */
  function LinkId(link: string): (id: string)
    ensures '/' !in id
  {
    var parts := Split(link, '/');
    SplitPiecesLackSep(link, '/');
    parts[|parts| - 1]
  }

  /**
   * The link id is the suffix of the link after its last `/` (the whole link
   * when it has no `/`).
   */
  lemma {:induction false} LinkIdIsLastSegment(link: string)
    ensures var id := LinkId(link);
            |id| <= |link| && link[|link| - |id|..] == id
            && (|id| < |link| ==> link[|link| - |id| - 1] == '/')
  {
    SplitLast(link, '/');
  }

  /** `short_id[:10]`: the first ten characters of an API result's short id. */
  function TruncateId(shortId: string): (id: string)
    ensures |id| == if |shortId| < 10 then |shortId| else 10
    ensures id == shortId[..|id|]
  {
    if |shortId| <= 10 then shortId else shortId[..10]
  }

  /** A new-style id `YYMM.NNNNN` followed by a version loses the version. */
  lemma TruncateIdDropsVersion(id: string, version: string)
    requires |id| == 10
    ensures TruncateId(id + "v" + version) == id
  {
    assert (id + "v" + version)[..10] == id;
  }

  /** `s.replace(".", "")`. */
  function RemoveDots(s: string): (r: string)
    ensures '.' !in r
    ensures |r| == |s| - Count(s, '.')
    decreases |s|
  {
    if s == [] then []
    else (if s[0] == '.' then [] else [s[0]]) + RemoveDots(s[1..])
  }

  function Pow10(n: nat): nat
  {
    if n == 0 then 1 else 10 * Pow10(n - 1)
  }

  /** The value of a decimal numeral, most significant digit first. */
  function DigitsValue(s: string): nat
    requires AllDigits(s)
  {
    if s == [] then 0
    else (s[0] as int - '0' as int) * Pow10(|s| - 1) + DigitsValue(s[1..])
  }

  /**
   * Python's `int(s)` on a string of ASCII digits; `None` stands for the
   * `ValueError` it raises on every other string of this model.
   */
  function ParseInt(s: string): (r: Option<nat>)
    ensures r.Some? <==> s != [] && AllDigits(s)
  {
    if s != [] && AllDigits(s) then Some(DigitsValue(s)) else None
  }

  /**
   * `is_earlier(ts1, ts2)`: both ids with their dots removed, read as
   * integers, and compared; `None` when either is not a numeral.
   */
  function IsEarlier(ts1: string, ts2: string): (r: Option<bool>)
    ensures r.Some? <==> && RemoveDots(ts1) != [] && AllDigits(RemoveDots(ts1))
                         && RemoveDots(ts2) != [] && AllDigits(RemoveDots(ts2))
  {
    match (ParseInt(RemoveDots(ts1)), ParseInt(RemoveDots(ts2)))
    case (Some(a), Some(b)) => Some(a < b)
    case _ => None
  }

  /** Lexicographic (string) order on strings of the same length. */
  predicate LexLess(a: string, b: string)
    requires |a| == |b|
  {
    a != [] && (a[0] < b[0] || (a[0] == b[0] && LexLess(a[1..], b[1..])))
  }

  lemma MulLe(x: int, y: int, p: nat)
    requires x <= y
    ensures x * p <= y * p
  {
  }

  lemma {:induction false} DigitsValueBound(s: string)
    requires AllDigits(s)
    ensures DigitsValue(s) < Pow10(|s|)
  {
    if s != [] {
      var d := s[0] as int - '0' as int;
      var p := Pow10(|s| - 1);
      DigitsValueBound(s[1..]);
      MulLe(d + 1, 10, p);
      assert DigitsValue(s) < (d + 1) * p;
    }
  }

  /** A numeral that is lexicographically smaller than one of the same length has a smaller value. */
  lemma {:induction false} LexLessValue(a: string, b: string)
    requires |a| == |b| && AllDigits(a) && AllDigits(b) && LexLess(a, b)
    ensures DigitsValue(a) < DigitsValue(b)
  {
    var da, db := a[0] as int - '0' as int, b[0] as int - '0' as int;
    var p := Pow10(|a| - 1);
    if a[0] < b[0] {
      DigitsValueBound(a[1..]);
      MulLe(da + 1, db, p);
      assert DigitsValue(a) < (da + 1) * p;
    } else {
      LexLessValue(a[1..], b[1..]);
    }
  }

  lemma {:induction false} LexTrichotomy(a: string, b: string)
    requires |a| == |b|
    ensures a == b || LexLess(a, b) || LexLess(b, a)
  {
    if a != [] && a[0] == b[0] {
      LexTrichotomy(a[1..], b[1..]);
      assert a == [a[0]] + a[1..] && b == [b[0]] + b[1..];
    }
  }

  /**
   * For ids whose numerals (dots removed) have the same length, `is_earlier`
   * is the string order of those numerals, in both directions.
   */
  lemma IsEarlierIsLexOrder(ts1: string, ts2: string)
    requires var a, b := RemoveDots(ts1), RemoveDots(ts2);
             a != [] && |a| == |b| && AllDigits(a) && AllDigits(b)
    ensures IsEarlier(ts1, ts2) == Some(LexLess(RemoveDots(ts1), RemoveDots(ts2)))
  {
    var a, b := RemoveDots(ts1), RemoveDots(ts2);
    if LexLess(a, b) {
      LexLessValue(a, b);
    } else {
      LexTrichotomy(a, b);
      if a != b {
        LexLessValue(b, a);
      }
    }
  }

  lemma {:induction false} RemoveDotsAppend(a: string, b: string)
    ensures RemoveDots(a + b) == RemoveDots(a) + RemoveDots(b)
  {
    if a == [] {
      assert a + b == b;
    } else {
      assert (a + b)[0] == a[0] && (a + b)[1..] == a[1..] + b;
      RemoveDotsAppend(a[1..], b);
    }
  }

  lemma {:induction false} RemoveDotsNoDot(s: string)
    requires '.' !in s
    ensures RemoveDots(s) == s
  {
    if s != [] {
      RemoveDotsNoDot(s[1..]);
    }
  }

  lemma RemoveDotsOfId(p: string, q: string)
    requires '.' !in p && '.' !in q
    ensures RemoveDots(p + "." + q) == p + q
  {
    RemoveDotsAppend(p + ".", q);
    RemoveDotsAppend(p, ".");
    RemoveDotsNoDot(p);
    RemoveDotsNoDot(q);
    assert RemoveDots(".") == [];
    assert RemoveDots(p + ".") == p;
  }

  /** A common prefix does not change the order. */
  lemma {:induction false} LexLessCommonPrefix(p: string, x: string, y: string)
    requires |x| == |y|
    ensures LexLess(p + x, p + y) <==> LexLess(x, y)
  {
    if p == [] {
      assert p + x == x && p + y == y;
    } else {
      assert (p + x)[1..] == p[1..] + x && (p + y)[1..] == p[1..] + y;
      LexLessCommonPrefix(p[1..], x, y);
    }
  }

  /** Putting the same character at the same place in both strings does not change their order. */
  lemma {:induction false} LexLessInsert(x: string, y: string, x': string, y': string, c: char)
    requires |x| == |x'| && |y| == |y'|
    ensures LexLess(x + [c] + y, x' + [c] + y') <==> LexLess(x + y, x' + y')
  {
    if x == [] {
      assert (x + [c] + y)[1..] == y && (x' + [c] + y')[1..] == y';
      assert x + y == y && x' + y' == y';
    } else {
      assert (x + [c] + y)[1..] == x[1..] + [c] + y;
      assert (x' + [c] + y')[1..] == x'[1..] + [c] + y';
      assert (x + y)[1..] == x[1..] + y && (x' + y')[1..] == x'[1..] + y';
      LexLessInsert(x[1..], y, x'[1..], y', c);
    }
  }

  /**
   * On two ids of the same shape (`<digits>.<digits>`, the parts of equal
   * lengths) `is_earlier` is plain string comparison of the ids.
   */
  lemma IsEarlierIsIdOrder(yymm1: string, num1: string, yymm2: string, num2: string)
    requires |yymm1| == |yymm2| && |num1| == |num2| && |yymm1| + |num1| > 0
    requires AllDigits(yymm1) && AllDigits(num1) && AllDigits(yymm2) && AllDigits(num2)
    ensures IsEarlier(yymm1 + "." + num1, yymm2 + "." + num2)
            == Some(LexLess(yymm1 + "." + num1, yymm2 + "." + num2))
  {
    var a, b := yymm1 + "." + num1, yymm2 + "." + num2;
    assert '.' !in yymm1 && '.' !in num1 && '.' !in yymm2 && '.' !in num2 by {
      assert !IsDigit('.');
    }
    RemoveDotsOfId(yymm1, num1);
    RemoveDotsOfId(yymm2, num2);
    IsEarlierIsLexOrder(a, b);
    LexLessInsert(yymm1, num1, yymm2, num2, '.');
  }

  /** `is_earlier` on two consecutive ids of the current arXiv form. */
  lemma IsEarlierExample(older: string, newer: string)
    requires older == "2501.00001" && newer == "2501.00002"
    ensures IsEarlier(older, newer) == Some(true)
  {
    var yymm, n1, n2 := "2501", "00001", "00002";
    assert AllDigits(yymm) && AllDigits(n1) && AllDigits(n2);
    assert older == yymm + "." + n1 && newer == yymm + "." + n2;
    IsEarlierIsIdOrder(yymm, n1, yymm, n2);
    assert LexLess(older, newer) by {
      LexLessInsert(yymm, n1, yymm, n2, '.');
      assert LexLess(n1, n2);
      LexLessCommonPrefix(yymm, n1, n2);
    }
  }
}
