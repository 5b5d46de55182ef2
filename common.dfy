/** Values and string operations shared by the JavaScript views, the Flask
    backend and the Telegram bot: optional values, JSON keys, filtering,
    trimming, case mapping, splitting/joining and decimal printing. */
module Common {

  datatype Option<T> = None | Some(value: T)

  /** A key of a JSON object / Python dict: absent, or present with a value. */
  datatype Field<T> = Absent | Present(value: T)

  /** An id held in a JSON value: a number, or the decimal text that an
      HTML `<select>` value or a `data-id` attribute carries. JavaScript's
      `===` never equates the two kinds. */
  datatype IdRef = NumId(n: int) | TextId(s: string)

  /** Python's `d.get(key, default)`. */
  function Get<T>(f: Field<T>, default: T): T
  {
    match f
    case Absent => default
    case Present(v) => v
  }

  /** JavaScript truthiness of a value that is a string or null. */
  predicate Truthy(o: Option<string>)
  {
    o.Some? && o.value != ""
  }

  // ---------------------------------------------------------------------
  // Filtering (Array.prototype.filter, Python list comprehensions with `if`)
  // ---------------------------------------------------------------------

  function Filter<T>(s: seq<T>, p: T -> bool): (r: seq<T>)
    ensures |r| <= |s|
    ensures forall i :: 0 <= i < |r| ==> r[i] in s && p(r[i])
    ensures forall i :: 0 <= i < |s| && p(s[i]) ==> s[i] in r
  {
    if s == [] then [] else (if p(s[0]) then [s[0]] else []) + Filter(s[1..], p)
  }

  /** Filtering keeps the relative order: it distributes over concatenation. */
  lemma {:induction false} FilterConcat<T>(a: seq<T>, b: seq<T>, p: T -> bool)
    ensures Filter(a + b, p) == Filter(a, p) + Filter(b, p)
  {
    if a == [] {
      assert a + b == b;
    } else {
      assert (a + b)[1..] == a[1..] + b;
      FilterConcat(a[1..], b, p);
    }
  }

  /** No element satisfies `p` exactly when the first does not and no
      later one does. */
  lemma {:induction false} NoneCons<T>(h: seq<T>, p: T -> bool)
    requires h != []
    ensures (forall k :: 0 <= k < |h| ==> !p(h[k])) <==> !p(h[0]) && forall k :: 0 <= k < |h[1..]| ==> !p(h[1..][k])
  {
    if !p(h[0]) && forall k :: 0 <= k < |h[1..]| ==> !p(h[1..][k]) {
      forall k | 1 <= k < |h|
        ensures !p(h[k])
      {
        assert h[k] == h[1..][k - 1];
      }
    }
  }

  /** A witness in the tail of a non-empty sequence, with its image under
      `f`, is a witness in the whole. */
  lemma {:induction false} SomeCons<T, U>(h: seq<T>, p: T -> bool, f: T -> U, v: U)
    requires h != []
    requires exists k :: 0 <= k < |h[1..]| && p(h[1..][k]) && v == f(h[1..][k])
    ensures exists k :: 0 <= k < |h| && p(h[k]) && v == f(h[k])
  {
    var k :| 0 <= k < |h[1..]| && p(h[1..][k]) && v == f(h[1..][k]);
    assert h[k + 1] == h[1..][k];
  }

  /** Filtering looks at the first element, then at the rest. */
  lemma {:induction false} FilterCons<T>(x: T, s: seq<T>, p: T -> bool)
    ensures Filter([x] + s, p) == (if p(x) then [x] else []) + Filter(s, p)
  {
    assert ([x] + s)[1..] == s;
  }

  /** Two tests that agree on every element filter alike. */
  lemma {:induction false} FilterSame<T>(s: seq<T>, p: T -> bool, q: T -> bool)
    requires forall i :: 0 <= i < |s| ==> p(s[i]) == q(s[i])
    ensures Filter(s, p) == Filter(s, q)
  {
    if s != [] {
      FilterSame(s[1..], p, q);
    }
  }

  /** A filter every element passes changes nothing. */
  lemma {:induction false} FilterAll<T>(s: seq<T>, p: T -> bool)
    requires forall i :: 0 <= i < |s| ==> p(s[i])
    ensures Filter(s, p) == s
  {
    if s != [] {
      FilterAll(s[1..], p);
    }
  }

  /** A filter no element passes leaves nothing. */
  lemma {:induction false} FilterNone<T>(s: seq<T>, p: T -> bool)
    requires forall i :: 0 <= i < |s| ==> !p(s[i])
    ensures Filter(s, p) == []
  {
    if s != [] {
      FilterNone(s[1..], p);
    }
  }

  /** Splitting by a predicate and its negation loses and invents nothing. */
  lemma {:induction false} FilterPartition<T>(s: seq<T>, p: T -> bool, q: T -> bool)
    requires forall x :: q(x) == !p(x)
    ensures multiset(Filter(s, p)) + multiset(Filter(s, q)) == multiset(s)
    ensures |Filter(s, p)| + |Filter(s, q)| == |s|
  {
    if s != [] {
      FilterPartition(s[1..], p, q);
      assert s == [s[0]] + s[1..];
    }
  }

  // ---------------------------------------------------------------------
  // Whitespace and trimming
  // ---------------------------------------------------------------------

  /** The characters JavaScript's `trim` removes and `\s` matches
      (WhiteSpace and LineTerminator of ECMAScript). */
  predicate IsJsSpace(c: char)
  {
    c == ' ' || c == '\t' || c == '\n' || c == '\r' || c == '\U{000B}' || c == '\U{000C}'
    || c == '\U{00A0}' || c == '\U{1680}' || ('\U{2000}' <= c <= '\U{200A}')
    || c == '\U{2028}' || c == '\U{2029}' || c == '\U{202F}' || c == '\U{205F}'
    || c == '\U{3000}' || c == '\U{FEFF}'
  }

  /** The characters Python's `str.strip()` removes (`str.isspace`). */
  predicate IsPySpace(c: char)
  {
    ('\t' <= c <= '\r') || ('\U{001C}' <= c <= '\U{001F}') || c == ' '
    || c == '\U{0085}' || c == '\U{00A0}' || c == '\U{1680}' || ('\U{2000}' <= c <= '\U{200A}')
    || c == '\U{2028}' || c == '\U{2029}' || c == '\U{202F}' || c == '\U{205F}' || c == '\U{3000}'
  }

  /** Removes the leading characters that satisfy `drop`. */
  function StripStart(s: string, drop: char -> bool): (r: string)
    ensures |r| <= |s| && r == s[|s| - |r|..]
    ensures r == [] || !drop(r[0])
    ensures forall k :: 0 <= k < |s| - |r| ==> drop(s[k])
  {
    if s != [] && drop(s[0]) then StripStart(s[1..], drop) else s
  }

  /** Removes the trailing characters that satisfy `drop`. */
  function StripEnd(s: string, drop: char -> bool): (r: string)
    ensures |r| <= |s| && r == s[..|r|]
    ensures r == [] || !drop(r[|r| - 1])
    ensures forall k :: |r| <= k < |s| ==> drop(s[k])
  {
    if s != [] && drop(s[|s| - 1]) then StripEnd(s[..|s| - 1], drop) else s
  }

  function Strip(s: string, drop: char -> bool): string
  {
    StripEnd(StripStart(s, drop), drop)
  }

  /** JavaScript `s.trim()`. */
  function JsTrim(s: string): string
  {
    Strip(s, IsJsSpace)
  }

  /** Python `s.strip()`. */
  function PyStrip(s: string): string
  {
    Strip(s, IsPySpace)
  }

  /** Nothing is stripped from a string whose ends are kept. */
  lemma {:induction false} StripKeeps(s: string, drop: char -> bool)
    requires s != [] && !drop(s[0]) && !drop(s[|s| - 1])
    ensures Strip(s, drop) == s
  {
    assert StripStart(s, drop) == s;
  }

  /** A string made only of characters `drop` removes. */
  predicate AllOf(s: string, drop: char -> bool)
  {
    forall k :: 0 <= k < |s| ==> drop(s[k])
  }

  /** What `StripStart` removes is all `drop`. */
  lemma StripStartPrefix(s: string, drop: char -> bool)
    ensures AllOf(s[..|s| - |StripStart(s, drop)|], drop)
  {
    var n := |s| - |StripStart(s, drop)|;
    forall k | 0 <= k < n
      ensures drop(s[..n][k])
    {
      assert s[..n][k] == s[k];
    }
  }

  /** What `StripEnd` removes is all `drop`. */
  lemma StripEndSuffix(s: string, drop: char -> bool)
    ensures AllOf(s[|StripEnd(s, drop)|..], drop)
  {
    var n := |StripEnd(s, drop)|;
    forall k | 0 <= k < |s| - n
      ensures drop(s[n..][k])
    {
      assert s[n..][k] == s[n + k];
    }
  }

  /** Neither end of a stripped string is a `drop` character. */
  lemma StripEnds(s: string, drop: char -> bool)
    ensures var r := Strip(s, drop); r == [] || (!drop(r[0]) && !drop(r[|r| - 1]))
  {
    var t := StripStart(s, drop);
    var r := StripEnd(t, drop);
    if r != [] {
      assert r[0] == t[0];
    }
  }

  /** Names the two cut points of a slice framed by `drop` characters. */
  lemma SliceWitness(s: string, r: string, drop: char -> bool, i: nat, j: nat)
    requires i <= j <= |s| && r == s[i..j]
    requires AllOf(s[..i], drop) && AllOf(s[j..], drop)
    ensures exists i', j' :: 0 <= i' <= j' <= |s| && r == s[i'..j'] && AllOf(s[..i'], drop) && AllOf(s[j'..], drop)
  {
  }

  /** Stripping cuts a run of removed characters off each end and keeps
      the middle as it is; what is left neither starts nor ends with a
      removed character. */
  lemma {:induction false} StripSlice(s: string, drop: char -> bool)
    ensures var r := Strip(s, drop);
      && (r == [] || (!drop(r[0]) && !drop(r[|r| - 1])))
      && exists i, j :: 0 <= i <= j <= |s| && r == s[i..j] && AllOf(s[..i], drop) && AllOf(s[j..], drop)
  {
    var t := StripStart(s, drop);
    var r := StripEnd(t, drop);
    var i := |s| - |t|;
    var j := i + |r|;
    StripEnds(s, drop);
    StripStartPrefix(s, drop);
    StripEndSuffix(t, drop);
    assert t == s[i..];
    assert r == t[..|r|];
    assert s[i..][..|r|] == s[i..j];
    assert s[j..] == t[|r|..];
    SliceWitness(s, r, drop, i, j);
  }

  /** Stripping leaves nothing exactly when the string is blank. */
  lemma {:induction false} StripEmptyIffBlank(s: string, drop: char -> bool)
    ensures Strip(s, drop) == "" <==> AllOf(s, drop)
  {
    var t := StripStart(s, drop);
    var r := StripEnd(t, drop);
    if r == [] {
      forall k | 0 <= k < |s|
        ensures drop(s[k])
      {
        if k >= |s| - |t| {
          assert s[k] == t[k - (|s| - |t|)];
        }
      }
    } else {
      assert r[0] == t[0] == s[|s| - |t|];
    }
  }

  // ---------------------------------------------------------------------
  // Case mapping (ASCII and the basic Cyrillic alphabet)
  // ---------------------------------------------------------------------

  function LowerChar(c: char): char
  {
    if 'A' <= c <= 'Z' || '\U{0410}' <= c <= '\U{042F}' then (c as int + 32) as char
    else if c == '\U{0401}' then '\U{0451}'
    else c
  }

  function UpperChar(c: char): char
  {
    if 'a' <= c <= 'z' || '\U{0430}' <= c <= '\U{044F}' then (c as int - 32) as char
    else if c == '\U{0451}' then '\U{0401}'
    else c
  }

  /** `s.toLowerCase()` in JavaScript, `s.lower()` in Python. */
  function Lower(s: string): (r: string)
    ensures |r| == |s|
  {
    seq(|s|, i requires 0 <= i < |s| => LowerChar(s[i]))
  }

  /** Lower-casing twice is lower-casing once. */
  lemma {:induction false} LowerIdempotent(s: string)
    ensures Lower(Lower(s)) == Lower(s)
  {
  }

  // ---------------------------------------------------------------------
  // Substrings, prefixes, splitting and joining
  // ---------------------------------------------------------------------

  /** `s.indexOf(x)`: the first index of `x`, or -1. */
  function IndexOf<T(==)>(s: seq<T>, x: T): (i: int)
    ensures -1 <= i < |s|
    ensures i == -1 <==> x !in s
    ensures i >= 0 ==> s[i] == x && x !in s[..i]
  {
    if s == [] then -1
    else if s[0] == x then 0
    else
      var j := IndexOf(s[1..], x);
      assert s == [s[0]] + s[1..];
      if j == -1 then -1
      else
        assert s[..j + 1] == [s[0]] + s[1..][..j];
        j + 1
  }

  /** The first index of `x` is the index before which `x` does not occur. */
  lemma {:induction false} IndexOfFirst<T>(s: seq<T>, x: T, i: int)
    requires 0 <= i < |s| && s[i] == x
    requires forall k :: 0 <= k < i ==> s[k] != x
    ensures IndexOf(s, x) == i
  {
    if i > 0 {
      IndexOfFirst(s[1..], x, i - 1);
    }
  }

  /** The first index of an element of a prefix is found in the prefix. */
  lemma {:induction false} IndexOfPrefix<T>(p: seq<T>, q: seq<T>, x: T)
    requires x in p
    ensures IndexOf(p + q, x) == IndexOf(p, x)
  {
    var i := IndexOf(p, x);
    assert forall k :: 0 <= k < i ==> p[..i][k] == p[k];
    IndexOfFirst(p + q, x, i);
  }

  /** An element first seen right after a prefix is found there. */
  lemma {:induction false} IndexOfAfter<T>(p: seq<T>, x: T)
    requires x !in p
    ensures IndexOf(p + [x], x) == |p|
  {
    IndexOfFirst(p + [x], x, |p|);
  }

  /** `hay.includes(needle)` / `needle in hay`. */
  predicate Contains(hay: string, needle: string)
  {
    StartsWith(hay, needle) || (hay != [] && Contains(hay[1..], needle))
  }

  /** `s.startsWith(prefix)`. */
  predicate StartsWith(s: string, prefix: string)
  {
    |prefix| <= |s| && s[..|prefix|] == prefix
  }

  /** `s.split(sep)` for a one-character separator, in JavaScript and in
      Python alike: every occurrence separates, empty pieces are kept. */
  function Split(s: string, sep: char): (parts: seq<string>)
    ensures |parts| >= 1
    ensures forall k :: 0 <= k < |parts| ==> sep !in parts[k]
  {
    if s == [] then [""]
    else
      var rest := Split(s[1..], sep);
      if s[0] == sep then [""] + rest
      else [[s[0]] + rest[0]] + rest[1..]
  }

  /** `parts.join(sep)`. */
  function Join(parts: seq<string>, sep: string): string
  {
    if |parts| == 0 then ""
    else if |parts| == 1 then parts[0]
    else parts[0] + sep + Join(parts[1..], sep)
  }

  /** Joining the pieces with the separator gives back the string. */
  lemma {:induction false} JoinSplit(s: string, sep: char)
    ensures Join(Split(s, sep), [sep]) == s
  {
    if s != [] {
      var rest := Split(s[1..], sep);
      JoinSplit(s[1..], sep);
      if s[0] == sep {
        assert s == [sep] + s[1..];
      } else {
        assert s == [s[0]] + s[1..];
        if |rest| > 1 {
          assert Split(s, sep)[1..] == rest[1..];
        }
      }
    }
  }

  /** A string without the separator is a single piece. */
  lemma {:induction false} SplitNoSep(s: string, sep: char)
    requires sep !in s
    ensures Split(s, sep) == [s]
  {
    if s != [] {
      SplitNoSep(s[1..], sep);
      assert s == [s[0]] + s[1..];
    }
  }

  /** The first separator ends the first piece. */
  lemma {:induction false} SplitSep(a: string, b: string, sep: char)
    requires sep !in a
    ensures Split(a + [sep] + b, sep) == [a] + Split(b, sep)
  {
    if a == [] {
      assert a + [sep] + b == [sep] + b;
      assert ([sep] + b)[1..] == b;
    } else {
      assert (a + [sep] + b)[1..] == a[1..] + [sep] + b;
      SplitSep(a[1..], b, sep);
      assert a == [a[0]] + a[1..];
    }
  }

  /** There is one more piece than there are separators. */
  lemma {:induction false} SplitCount(s: string, sep: char)
    ensures |Split(s, sep)| == multiset(s)[sep] + 1
  {
    if s != [] {
      SplitCount(s[1..], sep);
      assert s == [s[0]] + s[1..];
    }
  }

  /** The last piece is the text after the last separator, or the whole
      string when there is none. */
  lemma {:induction false} SplitLast(s: string, sep: char)
    ensures var last := Split(s, sep)[|Split(s, sep)| - 1];
      && |last| <= |s| && last == s[|s| - |last|..]
      && (sep in s ==> |last| < |s| && s[|s| - |last| - 1] == sep)
      && (sep !in s ==> last == s)
  {
    if s != [] {
      var t := s[1..];
      var rest := Split(t, sep);
      var parts := Split(s, sep);
      SplitLast(t, sep);
      SplitSeveral(t, sep);
      assert s == [s[0]] + t;
      if s[0] == sep {
        assert parts == [""] + rest;
        assert parts[|parts| - 1] == rest[|rest| - 1];
      } else if |rest| > 1 {
        assert parts == [[s[0]] + rest[0]] + rest[1..];
        assert parts[|parts| - 1] == rest[|rest| - 1];
      } else {
        assert parts == [[s[0]] + rest[0]];
        assert rest[0] == t;
      }
    }
  }

  /** There are several pieces exactly when the separator occurs. */
  lemma {:induction false} SplitSeveral(s: string, sep: char)
    ensures |Split(s, sep)| > 1 <==> sep in s
  {
    if s != [] {
      SplitSeveral(s[1..], sep);
      assert s == [s[0]] + s[1..];
    }
  }

  /** Lower-casing keeps every '.', so it lower-cases the pieces between
      them. */
  lemma {:induction false} SplitLower(s: string)
    ensures |Split(Lower(s), '.')| == |Split(s, '.')|
    ensures forall k :: 0 <= k < |Split(s, '.')| ==> Split(Lower(s), '.')[k] == Lower(Split(s, '.')[k])
  {
    if s != [] {
      SplitLower(s[1..]);
      assert Lower(s)[1..] == Lower(s[1..]);
      var rest := Split(s[1..], '.');
      if s[0] != '.' {
        assert Lower([s[0]] + rest[0]) == [LowerChar(s[0])] + Lower(rest[0]);
      }
    }
  }

  /** `filename.split('.').pop().toLowerCase()`. */
  function Extension(filename: string): string
  {
    var parts := Split(filename, '.');
    Lower(parts[|parts| - 1])
  }

  /** The extension is the lower-cased text after the last '.', or the
      whole lower-cased name when there is no '.'; it does not depend on
      the letter case of the name. */
  lemma {:induction false} ExtensionSpec(filename: string)
    ensures exists n ::
      0 <= n <= |filename| && Extension(filename) == Lower(filename[n..]) &&
      '.' !in filename[n..] && (n == 0 || filename[n - 1] == '.')
    ensures '.' !in filename ==> Extension(filename) == Lower(filename)
    ensures Extension(Lower(filename)) == Extension(filename)
  {
    SplitLast(filename, '.');
    var parts := Split(filename, '.');
    var last := parts[|parts| - 1];
    var n := |filename| - |last|;
    assert Extension(filename) == Lower(filename[n..]);
    SplitLower(filename);
    LowerIdempotent(last);
  }

  // ---------------------------------------------------------------------
  // Decimal printing of integers (`${n}` in JavaScript, `str(n)` in Python)
  // ---------------------------------------------------------------------

  predicate IsDigit(c: char)
  {
    '0' <= c <= '9'
  }

  function DigitChar(d: nat): (c: char)
    requires d < 10
    ensures IsDigit(c) && c as int - '0' as int == d
  {
    (d + '0' as int) as char
  }

  function NatToString(n: nat): (s: string)
    ensures |s| >= 1
    ensures forall k :: 0 <= k < |s| ==> IsDigit(s[k])
    ensures s[0] == '0' ==> n == 0 && s == "0"
  {
    if n < 10 then [DigitChar(n)] else NatToString(n / 10) + [DigitChar(n % 10)]
  }

  /** The number a string of decimal digits denotes. */
  function DecimalValue(s: string): nat
    requires forall k :: 0 <= k < |s| ==> IsDigit(s[k])
  {
    if s == [] then 0
    else
      assert IsDigit(s[|s| - 1]);
      DecimalValue(s[..|s| - 1]) * 10 + (s[|s| - 1] as int - '0' as int)
  }

  /** Printing a number and reading it back gives the number. */
  lemma {:induction false} DecimalRoundTrip(n: nat)
    ensures DecimalValue(NatToString(n)) == n
  {
    if n >= 10 {
      DecimalRoundTrip(n / 10);
      var s := NatToString(n);
      assert s[..|s| - 1] == NatToString(n / 10);
    }
  }

  function IntToString(i: int): (s: string)
    ensures |s| >= 1
    ensures s[0] == '-' <==> i < 0
  {
    if i < 0 then "-" + NatToString(-i) else NatToString(i)
  }

  /** Distinct naturals print differently. */
  lemma NatToStringInjective(m: nat, n: nat)
    requires NatToString(m) == NatToString(n)
    ensures m == n
  {
    DecimalRoundTrip(m);
    DecimalRoundTrip(n);
  }

  /** Distinct numbers print differently. */
  lemma {:induction false} IntToStringInjective(a: int, b: int)
    requires IntToString(a) == IntToString(b)
    ensures a == b
  {
    if a < 0 && b < 0 {
      var x, y := NatToString(-a), NatToString(-b);
      assert ("-" + x)[1..] == x;
      assert ("-" + y)[1..] == y;
      NatToStringInjective(-a, -b);
    } else if a >= 0 && b >= 0 {
      NatToStringInjective(a, b);
    }
  }

  /** `String(n).padStart(2, '0')`. */
  function Pad2(n: nat): (s: string)
    ensures |s| >= 2
    ensures forall k :: 0 <= k < |s| ==> IsDigit(s[k])
    ensures n < 100 ==> |s| == 2 && DecimalValue(s) == n
  {
    var d := NatToString(n);
    DecimalRoundTrip(n);
    if |d| < 2 then "0" + d else d
  }
}
