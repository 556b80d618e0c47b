/**
 * The Python string operations and the one tag-stripping regular expression
 * that the scraper applies to feed text, written out as functions over
 * `seq<char>`: `str.split`, `str.join`, `str.replace` of one character,
 * `str.strip` and `re.sub("<[^<]+?>", "", s)`.
 */
module Strings {
  import opened Options

  /** Number of occurrences of `c` in `s` (Python's `s.count(c)` for one character). */
  function Count(s: string, c: char): nat
  {
    if s == [] then 0 else (if s[0] == c then 1 else 0) + Count(s[1..], c)
  }

  lemma {:induction false} CountAppend(a: string, b: string, c: char)
    ensures Count(a + b, c) == Count(a, c) + Count(b, c)
  {
    if a != [] {
      assert (a + b)[0] == a[0] && (a + b)[1..] == a[1..] + b;
      CountAppend(a[1..], b, c);
    } else {
      assert a + b == b;
    }
  }

  lemma {:induction false} CountAbsent(s: string, c: char)
    requires c !in s
    ensures Count(s, c) == 0
  {
    if s != [] {
      CountAbsent(s[1..], c);
    }
  }

  /**
   * `s.split(sep)` for a one-character separator: the pieces between the
   * separators, an empty piece wherever two separators meet or one stands at
   * either end, and `[""]` for the empty string.
   */
  function Split(s: string, sep: char): (parts: seq<string>)
    ensures parts != []
    decreases |s|
  {
    if s == [] then [[]]
    else
      var rest := Split(s[1..], sep);
      assert s == [s[0]] + s[1..];
      if s[0] == sep then [[]] + rest
      else [[s[0]] + rest[0]] + rest[1..]
  }

  /** A split has one piece more than the string has separators, and one without any is one piece. */
  lemma {:induction false} SplitCount(s: string, sep: char)
    ensures |Split(s, sep)| == 1 + Count(s, sep)
    ensures Count(s, sep) == 0 ==> Split(s, sep) == [s]
    decreases |s|
  {
    if s != [] {
      SplitCount(s[1..], sep);
      assert s == [s[0]] + s[1..];
    }
  }

  /** No piece of a split holds the separator. */
  lemma {:induction false} SplitPiecesLackSep(s: string, sep: char)
    ensures forall i :: 0 <= i < |Split(s, sep)| ==> sep !in Split(s, sep)[i]
    decreases |s|
  {
    if s != [] {
      SplitPiecesLackSep(s[1..], sep);
    }
  }

  /** `sep.join(parts)`: it begins with the first part. */
  function Join(parts: seq<string>, sep: string): (joined: string)
    ensures parts != [] ==> parts[0] <= joined
  {
    if parts == [] then []
    else if |parts| == 1 then parts[0]
    else parts[0] + sep + Join(parts[1..], sep)
  }

  /** Splitting and joining again with the same separator gives back the string. */
  lemma {:induction false} JoinSplit(s: string, sep: char)
    ensures Join(Split(s, sep), [sep]) == s
  {
    if s != [] {
      var rest := Split(s[1..], sep);
      JoinSplit(s[1..], sep);
      if s[0] != sep && |rest| > 1 {
        assert Join(rest, [sep]) == rest[0] + [sep] + Join(rest[1..], [sep]);
        assert rest[1..][1..] == rest[2..];
      }
    }
  }

  /** Splitting at a separator between `a` and `b` splits `a` and `b` apart. */
  lemma {:induction false} SplitAppend(a: string, b: string, sep: char)
    ensures Split(a + [sep] + b, sep) == Split(a, sep) + Split(b, sep)
  {
    if a == [] {
      assert [sep] + b == a + [sep] + b;
      assert ([sep] + b)[1..] == b;
    } else {
      assert (a + [sep] + b)[1..] == a[1..] + [sep] + b;
      SplitAppend(a[1..], b, sep);
    }
  }

  /**
   * The last piece of `Split(s, sep)` (Python's `s.split(sep)[-1]`) is the
   * suffix of `s` after its last separator, or all of `s` if it has none.
   */
  lemma {:induction false} SplitLast(s: string, sep: char)
    ensures var parts := Split(s, sep);
            var last := parts[|parts| - 1];
            |last| <= |s| && s[|s| - |last|..] == last
            && (|last| < |s| ==> s[|s| - |last| - 1] == sep)
            && (|parts| > 1 ==> |last| < |s|)
  {
    if s != [] {
      SplitLast(s[1..], sep);
      SplitCount(s[1..], sep);
      SplitCount(s, sep);
    }
  }

  /** `s.replace("\n", ", ")`. */
  function ExpandNewlines(s: string): (r: string)
    ensures '\n' !in r
    decreases |s|
  {
    if s == [] then []
    else (if s[0] == '\n' then ", " else [s[0]]) + ExpandNewlines(s[1..])
  }

  /** Text without newlines is left alone. */
  lemma {:induction false} ExpandNewlinesPlain(s: string)
    requires '\n' !in s
    ensures ExpandNewlines(s) == s
  {
    if s != [] {
      ExpandNewlinesPlain(s[1..]);
    }
  }

  /** The replacement works piece by piece. */
  lemma {:induction false} ExpandNewlinesAppend(a: string, b: string)
    ensures ExpandNewlines(a + b) == ExpandNewlines(a) + ExpandNewlines(b)
  {
    if a == [] {
      assert a + b == b;
    } else {
      assert (a + b)[0] == a[0] && (a + b)[1..] == a[1..] + b;
      ExpandNewlinesAppend(a[1..], b);
    }
  }

  lemma ExpandNewlinesAround(a: string, c: char, b: string)
    ensures ExpandNewlines(a + [c] + b) == ExpandNewlines(a) + ExpandNewlines([c]) + ExpandNewlines(b)
  {
    assert a + [c] + b == a + ([c] + b);
    ExpandNewlinesAppend(a, [c] + b);
    ExpandNewlinesAppend([c], b);
  }

  lemma ExpandNewlinesOne(c: char)
    ensures ExpandNewlines([c]) == if c == '\n' then ", " else [c]
  {
    assert [c][1..] == [];
  }

  /** A newline expands to a comma followed by a space that stays with what follows. */
  lemma ExpandNewlinesAtNewline(a: string, b: string)
    ensures ExpandNewlines(a + "\n" + b) == ExpandNewlines(a) + [','] + ExpandNewlines(" " + b)
  {
    var ea, eb := ExpandNewlines(a), ExpandNewlines(b);
    calc {
      ExpandNewlines(a + "\n" + b);
      { ExpandNewlinesAround(a, '\n', b); }
      ea + ExpandNewlines("\n") + eb;
      { ExpandNewlinesOne('\n'); }
      ea + ", " + eb;
      { assert ea + ", " + eb == ea + [','] + (" " + eb); }
      ea + [','] + (" " + eb);
      { ExpandNewlinesAppend(" ", b); ExpandNewlinesOne(' '); }
      ea + [','] + ExpandNewlines(" " + b);
    }
  }

  /** Every newline becomes one more comma and one more character. */
  lemma {:induction false} ExpandNewlinesCounts(s: string)
    ensures Count(ExpandNewlines(s), ',') == Count(s, ',') + Count(s, '\n')
    ensures |ExpandNewlines(s)| == |s| + Count(s, '\n')
    decreases |s|
  {
    if s != [] {
      var head := if s[0] == '\n' then ", " else [s[0]];
      ExpandNewlinesCounts(s[1..]);
      CountAppend(head, ExpandNewlines(s[1..]), ',');
    }
  }

  /** `re.sub("\n", " ", s)`: every newline becomes a space and nothing else changes. */
  function NewlinesToSpaces(s: string): (r: string)
    ensures |r| == |s|
    ensures '\n' !in r
    ensures forall i :: 0 <= i < |s| && s[i] != '\n' ==> r[i] == s[i]
    ensures forall i :: 0 <= i < |s| && s[i] == '\n' ==> r[i] == ' '
    decreases |s|
  {
    if s == [] then []
    else [if s[0] == '\n' then ' ' else s[0]] + NewlinesToSpaces(s[1..])
  }

  /** The characters for which Python's `str.isspace()` holds, so `str.strip()` removes them. */
  const Whitespace: set<char> :=
    {' ', '\t', '\n', '\U{b}', '\U{c}', '\r', '\U{1c}', '\U{1d}', '\U{1e}', '\U{1f}', '\U{85}', '\U{a0}',
     '\U{1680}', '\U{2000}', '\U{2001}', '\U{2002}', '\U{2003}', '\U{2004}', '\U{2005}', '\U{2006}',
     '\U{2007}', '\U{2008}', '\U{2009}', '\U{200a}', '\U{2028}', '\U{2029}', '\U{202f}', '\U{205f}',
     '\U{3000}'}

  predicate IsSpace(c: char)
  {
    c in Whitespace
  }

  predicate IsTrimmed(s: string)
  {
    s == [] || (!IsSpace(s[0]) && !IsSpace(s[|s| - 1]))
  }

  /** `s.lstrip()`: the suffix of `s` left after dropping its leading whitespace. */
  function TrimStart(s: string): (r: string)
    ensures |r| <= |s|
    ensures r == [] || !IsSpace(r[0])
    decreases |s|
  {
    if s != [] && IsSpace(s[0]) then TrimStart(s[1..]) else s
  }

  /** What `lstrip` keeps is a suffix, and what it drops is whitespace. */
  lemma {:induction false} TrimStartSpec(s: string)
    ensures var r := TrimStart(s);
            r == s[|s| - |r|..] && forall i :: 0 <= i < |s| - |r| ==> IsSpace(s[i])
    decreases |s|
  {
    if s != [] && IsSpace(s[0]) {
      TrimStartSpec(s[1..]);
      assert forall i :: 1 <= i < |s| - |TrimStart(s)| ==> s[i] == s[1..][i - 1];
    }
  }

  /** `s.rstrip()`: the prefix of `s` left after dropping its trailing whitespace. */
  function TrimEnd(s: string): (r: string)
    ensures |r| <= |s|
    ensures r == [] || !IsSpace(r[|r| - 1])
    decreases |s|
  {
    if s != [] && IsSpace(s[|s| - 1]) then TrimEnd(s[..|s| - 1]) else s
  }

  /** What `rstrip` keeps is a prefix, and what it drops is whitespace. */
  lemma {:induction false} TrimEndSpec(s: string)
    ensures var r := TrimEnd(s);
            r == s[..|r|] && forall i :: |r| <= i < |s| ==> IsSpace(s[i])
    decreases |s|
  {
    if s != [] && IsSpace(s[|s| - 1]) {
      TrimEndSpec(s[..|s| - 1]);
      assert forall i :: |TrimEnd(s)| <= i < |s| - 1 ==> s[i] == s[..|s| - 1][i];
    }
  }

  /** `s.strip()`: `s` without its leading and trailing whitespace. */
  function Trim(s: string): (r: string)
    ensures IsTrimmed(r)
  {
    var e := TrimEnd(s);
    var r := TrimStart(e);
    TrimStartSpec(e);
    assert r != [] ==> r[|r| - 1] == e[|e| - 1];
    r
  }

  /**
   * `s.strip()` is the slice `s[lo..hi]` such that everything outside it is
   * whitespace; with `IsTrimmed`, that slice is unique.
   */
  lemma TrimIsSlice(s: string)
    ensures var r := Trim(s);
            var hi := |TrimEnd(s)|;
            var lo := hi - |r|;
            0 <= lo <= hi <= |s| && r == s[lo..hi]
            && (forall i :: 0 <= i < lo ==> IsSpace(s[i]))
            && (forall i :: hi <= i < |s| ==> IsSpace(s[i]))
  {
    var e := TrimEnd(s);
    var r := TrimStart(e);
    TrimEndSpec(s);
    TrimStartSpec(e);
    assert forall i :: 0 <= i < |e| - |r| ==> s[i] == e[i];
    assert s[|e| - |r|..|e|] == e[|e| - |r|..];
  }

  /** Stripping changes exactly the strings with blank ends. */
  lemma TrimFixes(s: string)
    ensures Trim(s) == s <==> IsTrimmed(s)
  {
    if IsTrimmed(s) && s != [] {
      assert TrimEnd(s) == s;
      assert TrimStart(s) == s;
    }
  }

  /** One leading blank before a stripped string is all that stripping removes. */
  lemma TrimLeadingSpace(c: char, s: string)
    requires IsSpace(c) && IsTrimmed(s)
    ensures Trim([c] + s) == s
  {
    var t := [c] + s;
    if s == [] {
      assert TrimEnd(t[..0]) == [];
    } else {
      assert t[|t| - 1] == s[|s| - 1];
      assert TrimEnd(t) == t;
      assert t[1..] == s;
      TrimFixes(s);
      assert TrimStart(s) == s;
    }
  }


  /**
   * Whether `<[^<]+?>` matches at the start of `s` with length `n`: an opening
   * `<`, at least one character that is not `<`, and the first `>` after that
   * first character (the lazy `+?`) closing it.
   */
  predicate IsTagAt(s: string, n: nat)
  {
    3 <= n <= |s| && s[0] == '<' && s[n - 1] == '>' && '<' !in s[1..n] && '>' !in s[2..n - 1]
  }

  /** The scan behind `TagMatch`: `s[1..k]` holds no `<` and, from index 2 on, no `>`. */
  function TagCloseFrom(s: string, k: nat): (r: Option<nat>)
    requires 1 <= k <= |s| && s[0] == '<'
    requires '<' !in s[1..k] && (k >= 2 ==> '>' !in s[2..k])
    ensures r.Some? ==> k < r.value && IsTagAt(s, r.value)
    ensures r.None? ==> forall n :: k < n <= |s| ==> !IsTagAt(s, n)
    decreases |s| - k
  {
    if k == |s| then None
    else if s[k] == '<' then
      assert forall n :: k < n <= |s| ==> s[k] in s[1..n];
      None
    else if s[k] == '>' && k >= 2 then Some(k + 1)
    else
      assert s[1..k + 1] == s[1..k] + [s[k]];
      assert k >= 2 ==> s[2..k + 1] == s[2..k] + [s[k]];
      var r := TagCloseFrom(s, k + 1);
      assert !IsTagAt(s, k + 1);
      r
  }

  /** The length of the match of `<[^<]+?>` at the start of `s`, if there is one. */
  function TagMatch(s: string): (r: Option<nat>)
    ensures r.Some? ==> IsTagAt(s, r.value)
    ensures r.None? ==> forall n :: 0 <= n <= |s| ==> !IsTagAt(s, n)
  {
    if |s| >= 1 && s[0] == '<' then TagCloseFrom(s, 1) else None
  }

  /**
   * `re.sub("<[^<]+?>", "", s)`: scanning left to right, every match is
   * deleted and the scan resumes after it; other characters are copied.
   */
  function StripTags(s: string): (r: string)
    ensures |r| <= |s|
    ensures '<' !in s ==> r == s
    decreases |s|
  {
    if s == [] then []
    else match TagMatch(s)
      case Some(n) =>
        StripTags(s[n..])
      case None =>
        assert s == [s[0]] + s[1..];
        [s[0]] + StripTags(s[1..])
  }

  /** The match at the start of a string, if any, has only one possible length. */
  lemma TagAtUnique(s: string, n: nat, m: nat)
    requires IsTagAt(s, n) && IsTagAt(s, m)
    ensures n == m
  {
    if m < n {
      TagAtFirstClose(s, n, m);
    } else if n < m {
      TagAtFirstClose(s, m, n);
    }
  }

  /** No shorter match ends inside a match: its `>` would lie inside it. */
  lemma TagAtFirstClose(s: string, n: nat, m: nat)
    requires IsTagAt(s, n) && 3 <= m < n
    ensures !IsTagAt(s, m)
  {
    assert s[m - 1] in s[2..n - 1];
  }

  /** A tag at the front is deleted whole, whatever follows it. */
  lemma StripTagsAtTag(t: string, b: string)
    requires IsTagAt(t, |t|)
    ensures StripTags(t + b) == StripTags(b)
  {
    var s := t + b;
    assert IsTagAt(s, |t|) by {
      assert s[1..|t|] == t[1..|t|] && s[2..|t| - 1] == t[2..|t| - 1];
    }
    var m := TagMatch(s);
    assert m.Some?;
    TagAtUnique(s, m.value, |t|);
    assert s[|t|..] == b;
  }

  /**
   * Text without `<` is copied, and a tag after it is deleted: tag
   * stripping removes `<...>` and keeps what precedes it.
   */
  lemma StripTagsDeletesTag(a: string, t: string, b: string)
    requires '<' !in a && IsTagAt(t, |t|)
    ensures StripTags(a + t + b) == a + StripTags(b)
  {
    StripTagsPlainHead(a, t + b);
    assert a + t + b == a + (t + b);
    StripTagsAtTag(t, b);
  }

  /** A head without `<` is copied, and the rest is stripped on its own. */
  lemma {:induction false} StripTagsPlainHead(a: string, rest: string)
    requires '<' !in a
    ensures StripTags(a + rest) == a + StripTags(rest)
  {
    if a != [] {
      StripTagsPlainHead(a[1..], rest);
      StripTagsPlainFirst(a[0], a[1..] + rest);
      HeadConcat(a, rest);
    } else {
      assert a + rest == rest;
    }
  }

  /** A `<` that starts no tag is not markup: it is copied like any other character. */
  lemma StripTagsKeepsLoneOpen(rest: string)
    requires TagMatch("<" + rest).None?
    ensures StripTags("<" + rest) == "<" + StripTags(rest)
  {
    assert ("<" + rest)[1..] == rest;
  }

  /** A `<` with no `>` after it is no tag, so `a<b` comes out as it went in. */
  lemma StripTagsLoneOpenExample()
    ensures StripTags("a<b") == "a<b"
  {
    assert "a<b" == "a" + "<b" && "<b" == "<" + "b";
    StripTagsPlainHead("a", "<b");
    StripTagsKeepsLoneOpen("b");
  }

  /** Splitting the first element off a concatenation. */
  lemma HeadConcat<T>(a: seq<T>, rest: seq<T>)
    requires a != []
    ensures a + rest == [a[0]] + (a[1..] + rest)
    ensures a == [a[0]] + a[1..]
  {
  }

  /** A first character other than `<` is copied. */
  lemma StripTagsPlainFirst(c: char, rest: string)
    requires c != '<'
    ensures StripTags([c] + rest) == [c] + StripTags(rest)
  {
    assert ([c] + rest)[1..] == rest;
  }

  /** Tag stripping keeps the characters it does not delete in their order. */
  lemma {:induction false} StripTagsIsSubsequence(s: string)
    ensures IsSubseq(StripTags(s), s)
    decreases |s|
  {
    if s != [] {
      match TagMatch(s)
      case Some(n) =>
        StripTagsIsSubsequence(s[n..]);
        SubseqOfSuffix(StripTags(s[n..]), s, n);
      case None =>
        StripTagsIsSubsequence(s[1..]);
        SubseqCons(s[0], StripTags(s[1..]), s[1..]);
        assert [s[0]] + s[1..] == s;
    }
  }

  /**
   * `a` is obtained from `b` by deleting elements: either the last element of
   * `b` is the last element of `a`, or it was deleted.
   */
  predicate IsSubseq<T(==)>(a: seq<T>, b: seq<T>)
    decreases |b|
  {
    if b == [] then a == []
    else (a != [] && a[|a| - 1] == b[|b| - 1] && IsSubseq(a[..|a| - 1], b[..|b| - 1]))
         || IsSubseq(a, b[..|b| - 1])
  }

  lemma {:induction false} SubseqEmpty<T>(b: seq<T>)
    ensures IsSubseq([], b)
    decreases |b|
  {
    if b != [] {
      SubseqEmpty(b[..|b| - 1]);
    }
  }

  lemma {:induction false} SubseqCons<T>(x: T, a: seq<T>, b: seq<T>)
    requires IsSubseq(a, b)
    ensures IsSubseq([x] + a, [x] + b)
    decreases |b|
  {
    if b == [] {
      SubseqEmpty<T>([]);
      assert ([x] + b)[..|[x] + b| - 1] == [];
    } else {
      assert ([x] + b)[..|[x] + b| - 1] == [x] + b[..|b| - 1];
      if a != [] && a[|a| - 1] == b[|b| - 1] && IsSubseq(a[..|a| - 1], b[..|b| - 1]) {
        SubseqCons(x, a[..|a| - 1], b[..|b| - 1]);
        assert ([x] + a)[..|[x] + a| - 1] == [x] + a[..|a| - 1];
      } else {
        SubseqCons(x, a, b[..|b| - 1]);
      }
    }
  }

  lemma {:induction false} SubseqOfSuffix<T>(a: seq<T>, b: seq<T>, n: nat)
    requires n <= |b| && IsSubseq(a, b[n..])
    ensures IsSubseq(a, b)
    decreases |b|
  {
    if n > 0 {
      if b[n..] == [] {
        SubseqEmpty(b);
      } else {
        assert b[..|b| - 1][n..] == b[n..][..|b[n..]| - 1];
        if a != [] && a[|a| - 1] == b[|b| - 1] && IsSubseq(a[..|a| - 1], b[n..][..|b[n..]| - 1]) {
          SubseqOfSuffix(a[..|a| - 1], b[..|b| - 1], n);
        } else {
          SubseqOfSuffix(a, b[..|b| - 1], n);
        }
      }
    }
  }

  predicate IsDigit(c: char)
  {
    '0' <= c <= '9'
  }

  predicate AllDigits(s: string)
  {
    forall i :: 0 <= i < |s| ==> IsDigit(s[i])
  }

  /** Length of the run of ASCII digits (`[0-9]`) at the start of `s`. */
  function DigitRun(s: string): (n: nat)
    ensures n <= |s|
    decreases |s|
  {
    if s != [] && IsDigit(s[0]) then 1 + DigitRun(s[1..]) else 0
  }

  /** The digit run of digits followed by a non-digit is exactly those digits. */
  lemma {:induction false} DigitRunOf(digits: string, c: char, rest: string)
    requires AllDigits(digits) && !IsDigit(c)
    ensures DigitRun(digits + [c] + rest) == |digits|
  {
    if digits != [] {
      assert (digits + [c] + rest)[1..] == digits[1..] + [c] + rest;
      DigitRunOf(digits[1..], c, rest);
    } else {
      assert (digits + [c] + rest)[0] == c;
    }
  }

  // ---------------------------------------------------------------------
  // Leftmost matching suffix

  /** The leftmost position `k >= i` such that `s[k..]`, a nonempty suffix, satisfies `p`. */
  function FirstSuffix(s: string, i: nat, p: string -> bool): (k: Option<nat>)
    requires i <= |s|
    ensures k.Some? ==> i <= k.value < |s|
    decreases |s| - i
  {
    if i == |s| then None
    else if p(s[i..]) then Some(i)
    else FirstSuffix(s, i + 1, p)
  }

  /** The search finds the leftmost such suffix, and finds none only when there is none. */
  lemma {:induction false} FirstSuffixSpec(s: string, i: nat, p: string -> bool)
    requires i <= |s|
    ensures var k := FirstSuffix(s, i, p);
            && (k.Some? ==> p(s[k.value..]))
            && (k.Some? ==> forall j :: i <= j < k.value ==> !p(s[j..]))
            && (k.None? ==> forall j :: i <= j < |s| ==> !p(s[j..]))
    decreases |s| - i
  {
    if i < |s| && !p(s[i..]) {
      FirstSuffixSpec(s, i + 1, p);
    }
  }

  /** `s` cut just before its leftmost suffix satisfying `p`; all of `s` when none does. */
  function CutAtFirstSuffix(s: string, p: string -> bool): (r: string)
    ensures |r| <= |s|
  {
    match FirstSuffix(s, 0, p)
    case None => s
    case Some(k) => s[..k]
  }

  /**
   * The cut keeps a prefix of `s`; no suffix starting inside that prefix
   * satisfies `p`, and the suffix it removes, when it removes any, does.
   */
  lemma CutAtFirstSuffixSpec(s: string, p: string -> bool)
    ensures var r := CutAtFirstSuffix(s, p);
            && r == s[..|r|]
            && (forall j :: 0 <= j < |r| ==> !p(s[j..]))
            && (|r| < |s| ==> p(s[|r|..]))
  {
    FirstSuffixSpec(s, 0, p);
  }

  /** When `s[k..]` is the leftmost suffix satisfying `p`, the cut keeps exactly `s[..k]`. */
  lemma CutAtFirstSuffixAt(s: string, k: nat, p: string -> bool)
    requires k < |s| && p(s[k..])
    requires forall j :: 0 <= j < k ==> !p(s[j..])
    ensures CutAtFirstSuffix(s, p) == s[..k]
  {
    CutAtFirstSuffixSpec(s, p);
  }
}
