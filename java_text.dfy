/** The behaviour of the Java library calls that the archive-diff core relies on:
    the signed `byte`, `Integer.toString` and `Integer.parseInt`, the bounded
    `String.split(sep, limit)`, `String.isBlank` and the lexicographic order of
    `String.compareTo`, which is the order of `TreeSet<String>` and of
    `Comparator.comparing(EntryInfo::path)`. */
module JavaText {
  import opened Prefix

  datatype Option<+T> = None | Some(value: T)

  /** The range of a Java `int`. */
  const IntMax: int := 0x7fff_ffff
  const IntMin: int := -0x8000_0000

  /** A Java `byte`: a signed 8-bit two's-complement value. */
  newtype JByte = x: int | -128 <= x < 128

  // ---------------------------------------------------------------------------
  // Lexicographic order of strings (String.compareTo < 0)
  // ---------------------------------------------------------------------------

  /** `a` sorts strictly before `b`: the first differing character decides, and
      a proper prefix sorts before the longer string. */
  predicate Less(a: string, b: string)
  {
    if |a| == 0 then |b| > 0
    else |b| > 0 && (a[0] < b[0] || (a[0] == b[0] && Less(a[1..], b[1..])))
  }

  /** The order as `compareTo` documents it: with `k` the length of the longest
      common prefix, `a` sorts first when it is that prefix and `b` is longer,
      or when both go on and `a`'s character at `k` is the smaller. */
  lemma {:induction false} LessByCommonPrefix(a: string, b: string)
    ensures Less(a, b) <==>
      && CommonPrefixLength(a, b) < |b|
      && (CommonPrefixLength(a, b) == |a| || a[CommonPrefixLength(a, b)] < b[CommonPrefixLength(a, b)])
  {
    if |a| > 0 && |b| > 0 && a[0] == b[0] {
      LessByCommonPrefix(a[1..], b[1..]);
    }
  }

  lemma {:induction false} LessIrreflexive(a: string)
    ensures !Less(a, a)
  {
    if |a| > 0 {
      LessIrreflexive(a[1..]);
    }
  }

  lemma {:induction false} LessAsymmetric(a: string, b: string)
    ensures Less(a, b) ==> !Less(b, a)
  {
    if |a| > 0 && |b| > 0 && a[0] == b[0] {
      LessAsymmetric(a[1..], b[1..]);
    }
  }

  lemma {:induction false} LessTransitive(a: string, b: string, c: string)
    requires Less(a, b) && Less(b, c)
    ensures Less(a, c)
  {
    if |a| > 0 && a[0] == b[0] && b[0] == c[0] {
      LessTransitive(a[1..], b[1..], c[1..]);
    }
  }

  lemma {:induction false} LessTotal(a: string, b: string)
    ensures a == b || Less(a, b) || Less(b, a)
  {
    if |a| > 0 && |b| > 0 && a[0] == b[0] {
      LessTotal(a[1..], b[1..]);
      if a[1..] == b[1..] {
        assert a == [a[0]] + a[1..] && b == [b[0]] + b[1..];
      }
    }
  }

  /** The order in which a `TreeSet<String>` iterates. */
  ghost predicate StrictlyAscending(s: seq<string>)
  {
    forall i, j :: 0 <= i < j < |s| ==> Less(s[i], s[j])
  }

  /** A strictly ascending sequence is determined by its elements, so there is
      exactly one way to iterate a set in ascending order. */
  lemma {:induction false} AscendingUnique(s: seq<string>, t: seq<string>)
    requires StrictlyAscending(s) && StrictlyAscending(t)
    requires forall x :: x in s <==> x in t
    ensures s == t
  {
    if s != [] && t != [] {
      assert s[0] in t && t[0] in s;
      if s[0] != t[0] {
        var k :| 0 <= k < |s| && s[k] == t[0];
        var l :| 0 <= l < |t| && t[l] == s[0];
        assert Less(s[0], s[k]) && Less(t[0], t[l]);
        LessAsymmetric(s[0], t[0]);
        assert false;
      }
      forall x
        ensures x in s[1..] <==> x in t[1..]
      {
        if x in s[1..] {
          var k :| 1 <= k < |s| && s[k] == x;
          assert Less(s[0], x);
          LessIrreflexive(x);
          assert x in s && x in t;
          var l :| 0 <= l < |t| && t[l] == x;
          assert l != 0;
          assert t[1..][l - 1] == x;
        }
        if x in t[1..] {
          var k :| 1 <= k < |t| && t[k] == x;
          assert Less(t[0], x);
          LessIrreflexive(x);
          assert x in t && x in s;
          var l :| 0 <= l < |s| && s[l] == x;
          assert l != 0;
          assert s[1..][l - 1] == x;
        }
      }
      AscendingUnique(s[1..], t[1..]);
      assert s == [s[0]] + s[1..] && t == [t[0]] + t[1..];
    } else if s != [] {
      HeadIn(s);
      assert false;
    } else if t != [] {
      HeadIn(t);
      assert false;
    }
  }

  /** `m` is the least element of `s`. */
  predicate IsLeast(m: string, s: set<string>)
  {
    m in s && forall y :: y in s && y != m ==> Less(m, y)
  }

  lemma HeadIn(s: seq<string>)
    requires s != []
    ensures s[0] in s
  {
  }

  /** Every non-empty finite set of strings has a least element. */
  lemma {:induction false} MinimumExists(s: set<string>)
    requires s != {}
    ensures exists m :: IsLeast(m, s)
    decreases |s|
  {
    var x :| x in s;
    var rest := s - {x};
    if rest == {} {
      assert s == {x};
      assert IsLeast(x, s);
    } else {
      MinimumExists(rest);
      var m :| IsLeast(m, rest);
      LessTotal(x, m);
      if Less(x, m) {
        forall y | y in s && y != x
          ensures Less(x, y)
        {
          if y != m {
            assert y in rest;
            LessTransitive(x, m, y);
          }
        }
        assert IsLeast(x, s);
      } else {
        assert Less(m, x);
        assert IsLeast(m, s);
      }
    }
  }

  /** The iteration order of a `TreeSet<String>`: the elements of `s`, each
      once, in ascending order. The tree is modelled by taking the least
      remaining element again and again. */
  method AscendingElements(s: set<string>) returns (elems: seq<string>)
    ensures StrictlyAscending(elems)
    ensures forall x :: x in elems <==> x in s
  {
    elems := [];
    var remaining := s;
    while remaining != {}
      invariant forall x :: x in s <==> x in elems || x in remaining
      invariant forall x :: x in elems ==> x !in remaining
      invariant StrictlyAscending(elems)
      invariant forall i, y :: 0 <= i < |elems| && y in remaining ==> Less(elems[i], y)
      decreases |remaining|
    {
      MinimumExists(remaining);
      var p :| IsLeast(p, remaining);
      elems := elems + [p];
      remaining := remaining - {p};
    }
  }

  // ---------------------------------------------------------------------------
  // Decimal integers (Integer.toString, Integer.parseInt)
  // ---------------------------------------------------------------------------

  predicate IsDigit(c: char)
  {
    '0' <= c <= '9'
  }

  predicate AllDigits(s: string)
  {
    forall i :: 0 <= i < |s| ==> IsDigit(s[i])
  }

  function DigitChar(d: int): (c: char)
    requires 0 <= d < 10
    ensures IsDigit(c) && c as int - '0' as int == d
  {
    ('0' as int + d) as char
  }

  /** The value of a string of decimal digits, most significant first. */
  function DigitsValue(s: string): nat
    requires AllDigits(s)
  {
    if s == [] then 0
    else DigitsValue(s[..|s| - 1]) * 10 + (s[|s| - 1] as int - '0' as int)
  }

  /** `Integer.toString(n)` for a non-negative `n`: its digits, with no sign and no
      leading zero. */
  function Decimal(n: nat): (s: string)
    ensures |s| >= 1 && AllDigits(s)
    ensures s[0] == '0' ==> n == 0
  {
    if n < 10 then [DigitChar(n)] else Decimal(n / 10) + [DigitChar(n % 10)]
  }

  /** `Integer.parseInt(s)`: an optional `-` or `+` followed by at least one decimal
      digit, whose value must fit in an `int`; anything else throws
      `NumberFormatException`, modelled as `None`. */
  function ParseInt(s: string): (r: Option<int>)
    ensures r.Some? ==> IntMin <= r.value <= IntMax
    ensures r.Some? ==> |s| >= 1 && AllDigits(s[1..])
    ensures r.Some? ==> IsDigit(s[0]) || ((s[0] == '+' || s[0] == '-') && |s| >= 2)
    ensures |s| >= 1 && AllDigits(s) ==>
      (r.Some? <==> DigitsValue(s) <= IntMax) && (r.Some? ==> r.value == DigitsValue(s))
    ensures |s| >= 2 && s[0] == '+' && AllDigits(s[1..]) ==>
      (r.Some? <==> DigitsValue(s[1..]) <= IntMax) && (r.Some? ==> r.value == DigitsValue(s[1..]))
    ensures |s| >= 2 && s[0] == '-' && AllDigits(s[1..]) ==>
      (r.Some? <==> DigitsValue(s[1..]) <= -IntMin) && (r.Some? ==> r.value == -(DigitsValue(s[1..]) as int))
  {
    var negative := |s| > 0 && s[0] == '-';
    var digits := if |s| > 0 && (s[0] == '-' || s[0] == '+') then s[1..] else s;
    if |digits| == 0 || !AllDigits(digits) then None
    else
      var v: int := if negative then -(DigitsValue(digits) as int) else DigitsValue(digits);
      if IntMin <= v <= IntMax then Some(v) else None
  }

  lemma {:induction false} DecimalValue(n: nat)
    ensures DigitsValue(Decimal(n)) == n
  {
    if n >= 10 {
      DecimalValue(n / 10);
      var s := Decimal(n);
      assert s[..|s| - 1] == Decimal(n / 10);
    }
  }

  /** `Integer.parseInt(Integer.toString(n)) == n` for every non-negative `int`. */
  lemma ParseDecimal(n: nat)
    requires n <= IntMax
    ensures ParseInt(Decimal(n)) == Some(n)
  {
    DecimalValue(n);
  }

  // ---------------------------------------------------------------------------
  // String.split(String.valueOf(sep), limit) with a positive limit
  // ---------------------------------------------------------------------------

  /** The index of the first `c` in `s`, or `|s|` when there is none. */
  function Find(s: string, c: char): (k: nat)
    ensures k <= |s|
    ensures forall i :: 0 <= i < k ==> s[i] != c
    ensures k < |s| ==> s[k] == c
  {
    if s == [] || s[0] == c then 0 else 1 + Find(s[1..], c)
  }

  /** The inverse of `Split`: the parts with one `sep` between neighbours. */
  function Join(parts: seq<string>, sep: char): string
  {
    if parts == [] then ""
    else if |parts| == 1 then parts[0]
    else parts[0] + [sep] + Join(parts[1..], sep)
  }

  /** `s.split(sep, limit)` for a one-character separator that is not a regular
      expression metacharacter and a positive `limit`: `s` is cut at its first
      `limit - 1` separators at most; the last part keeps the rest of the string,
      separators included, and empty parts (even trailing ones) are kept. */
  function Split(s: string, sep: char, limit: nat): (parts: seq<string>)
    requires limit >= 1
    ensures 1 <= |parts| <= limit
    ensures Join(parts, sep) == s
    ensures forall i :: 0 <= i < |parts| - 1 ==> sep !in parts[i]
    ensures |parts| < limit ==> sep !in parts[|parts| - 1]
    decreases limit
  {
    if limit == 1 then [s]
    else
      var k := Find(s, sep);
      if k == |s| then [s]
      else
        var rest := Split(s[k + 1..], sep, limit - 1);
        var parts := [s[..k]] + rest;
        assert parts[1..] == rest;
        assert s == s[..k] + [sep] + s[k + 1..];
        parts
  }

  /** The first separator of `p + [sep] + rest` is the one after `p` when `p` has none. */
  lemma {:induction false} FindAfter(p: string, sep: char, rest: string)
    requires sep !in p
    ensures Find(p + [sep] + rest, sep) == |p|
  {
    if p != [] {
      assert (p + [sep] + rest)[1..] == p[1..] + [sep] + rest;
      FindAfter(p[1..], sep, rest);
    }
  }

  /** Splitting the join of parts that obey `Split`'s rules gives the parts back:
      `Split`'s contract determines its result. */
  lemma {:induction false} SplitJoin(parts: seq<string>, sep: char, limit: nat)
    requires 1 <= |parts| <= limit
    requires forall i :: 0 <= i < |parts| - 1 ==> sep !in parts[i]
    requires |parts| < limit ==> sep !in parts[|parts| - 1]
    ensures Split(Join(parts, sep), sep, limit) == parts
  {
    if |parts| == 1 {
      SplitJoinOne(parts, sep, limit);
    } else {
      var tail, rest := parts[1..], Join(parts[1..], sep);
      TailObeysSplit(parts, tail, sep, limit);
      SplitJoin(tail, sep, limit - 1);
      SplitJoinCons(parts, tail, rest, sep, limit);
    }
  }

  /** A single part that obeys `Split`'s rules splits back to itself. */
  lemma SplitJoinOne(parts: seq<string>, sep: char, limit: nat)
    requires |parts| == 1 && limit >= 1
    requires limit > 1 ==> sep !in parts[0]
    ensures Split(Join(parts, sep), sep, limit) == parts
  {
    SplitWhole(parts[0], sep, limit);
    assert parts == [parts[0]];
  }

  /** The parts after the first obey `Split`'s rules for one cut fewer. */
  lemma TailObeysSplit(parts: seq<string>, tail: seq<string>, sep: char, limit: nat)
    requires 2 <= |parts| <= limit && tail == parts[1..]
    requires forall i :: 0 <= i < |parts| - 1 ==> sep !in parts[i]
    requires |parts| < limit ==> sep !in parts[|parts| - 1]
    ensures sep !in parts[0]
    ensures 1 <= |tail| <= limit - 1
    ensures forall i :: 0 <= i < |tail| - 1 ==> sep !in tail[i]
    ensures |tail| < limit - 1 ==> sep !in tail[|tail| - 1]
  {
    forall i | 0 <= i < |tail| - 1 ensures sep !in tail[i] {
      assert tail[i] == parts[i + 1];
    }
  }

  /** One more part in front of parts that already split back. */
  lemma SplitJoinCons(parts: seq<string>, tail: seq<string>, rest: string, sep: char, limit: nat)
    requires 2 <= |parts| && 2 <= limit && sep !in parts[0] && tail == parts[1..]
    requires rest == Join(tail, sep) && Split(rest, sep, limit - 1) == tail
    ensures Split(Join(parts, sep), sep, limit) == parts
  {
    SplitFirst(parts[0], sep, rest, limit);
    assert parts == [parts[0]] + tail;
  }

  /** A string cut nowhere: the limit is one, or there is no separator. */
  lemma SplitWhole(s: string, sep: char, limit: nat)
    requires limit >= 1
    requires limit > 1 ==> sep !in s
    ensures Split(s, sep, limit) == [s]
  {
    if limit > 1 {
      assert Find(s, sep) == |s|;
    }
  }

  /** The first cut falls on the first separator. */
  lemma SplitFirst(p: string, sep: char, tail: string, limit: nat)
    requires limit >= 2 && sep !in p
    ensures Split(p + [sep] + tail, sep, limit) == [p] + Split(tail, sep, limit - 1)
  {
    var s := p + [sep] + tail;
    FindAfter(p, sep, tail);
    assert s[..|p|] == p;
    assert s[|p| + 1..] == tail;
  }

  // ---------------------------------------------------------------------------
  // String.isBlank
  // ---------------------------------------------------------------------------

  /** `Character.isWhitespace`: the Unicode space, line and paragraph separators
      except the non-breaking ones, and the control characters U+0009-U+000D and
      U+001C-U+001F. */
  predicate IsWhitespace(c: char)
    ensures IsWhitespace(c) ==> c != ':' && !IsDigit(c) && !('a' <= c <= 'z') && !('A' <= c <= 'Z')
    ensures c == ' ' || c == '\t' || c == '\n' || c == '\r' ==> IsWhitespace(c)
  {
    || c == ' '
    || '\t' <= c <= '\r'
    || '\U{001C}' <= c <= '\U{001F}'
    || c == '\U{1680}'
    || '\U{2000}' <= c <= '\U{2006}'
    || '\U{2008}' <= c <= '\U{200A}'
    || c == '\U{2028}' || c == '\U{2029}'
    || c == '\U{205F}' || c == '\U{3000}'
  }

  /** `s.isBlank()`: empty or white space only. */
  predicate IsBlank(s: string)
    ensures s == [] ==> IsBlank(s)
    ensures IsBlank(s) ==> ':' !in s
  {
    forall i :: 0 <= i < |s| ==> IsWhitespace(s[i])
  }
}
