/** The parts of Python's `str` that the replication scripts lean on, stated
  * over `seq<char>`: whitespace stripping, `split`/`join` on one separator
  * character, `replace`, `in`, `startswith`/`endswith`, decimal rendering
  * and parsing, and `os.path` joining and splitting on POSIX paths. */
module Strings {
  import opened Common

  /** Python 3's `str.isspace` for one character. Python 2's byte strings
    * count only the ASCII blanks (space and tab to carriage return) as
    * whitespace; the two agree on ASCII text. */
  predicate IsSpace(c: char)
  {
    c == ' ' || '\t' <= c <= '\r' || '\U{001C}' <= c <= '\U{001F}' || c == '\U{0085}' || c == '\U{00A0}'
    || c == '\U{1680}' || '\U{2000}' <= c <= '\U{200A}' || c == '\U{2028}' || c == '\U{2029}'
    || c == '\U{202F}' || c == '\U{205F}' || c == '\U{3000}'
  }

  predicate AllSpace(s: string) { forall i :: 0 <= i < |s| ==> IsSpace(s[i]) }

  predicate HasNonSpace(s: string) { exists i :: 0 <= i < |s| && !IsSpace(s[i]) }

  /** Number of whitespace characters at the start of `s`. */
  function LeadingSpaces(s: string): (n: nat)
    ensures n <= |s| && (n == |s| || !IsSpace(s[n]))
  {
    if s != [] && IsSpace(s[0]) then 1 + LeadingSpaces(s[1..]) else 0
  }

  /** Index just after the last non-whitespace character of `s`. */
  function TrailingStart(s: string): (n: nat)
    ensures n <= |s| && (n == 0 || !IsSpace(s[n - 1]))
  {
    if s != [] && IsSpace(s[|s| - 1]) then TrailingStart(s[..|s| - 1]) else |s|
  }

  /** `s.lstrip()`. */
  function LStrip(s: string): string { s[LeadingSpaces(s)..] }

  /** `s.rstrip()`. */
  function RStrip(s: string): string { s[..TrailingStart(s)] }

  lemma {:induction false} LeadingSpacesAreSpace(s: string, k: nat)
    requires k < LeadingSpaces(s)
    ensures IsSpace(s[k])
  {
    if k > 0 {
      LeadingSpacesAreSpace(s[1..], k - 1);
    }
  }

  lemma {:induction false} TrailingSpacesAreSpace(s: string, k: nat)
    requires TrailingStart(s) <= k < |s|
    ensures IsSpace(s[k])
  {
    if k < |s| - 1 {
      TrailingSpacesAreSpace(s[..|s| - 1], k);
    }
  }

  /** `s.strip()`. */
  function Strip(s: string): string { RStrip(LStrip(s)) }

  /** `sep.join(parts)`. */
  function Join(parts: seq<string>, sep: string): string
  {
    if |parts| == 0 then [] else if |parts| == 1 then parts[0] else parts[0] + sep + Join(parts[1..], sep)
  }

  /** `s.split(sep)` for a one-character separator: never empty, and no piece
    * holds the separator. */
  function Split(s: string, sep: char): (r: seq<string>)
    ensures |r| >= 1
    ensures forall i :: 0 <= i < |r| ==> sep !in r[i]
  {
    if s == [] then [[]]
    else
      var rest := Split(s[1..], sep);
      if s[0] == sep then [[]] + rest else [[s[0]] + rest[0]] + rest[1..]
  }

  /** `join` undoes `split`: the pieces glued back with the separator give
    * the original string. */
  lemma {:induction false} JoinSplit(s: string, sep: char)
    ensures Join(Split(s, sep), [sep]) == s
  {
    if s != [] {
      var rest := Split(s[1..], sep);
      JoinSplit(s[1..], sep);
      if s[0] == sep {
        assert Split(s, sep) == [[]] + rest;
        if |rest| == 1 {
          assert Join(Split(s, sep), [sep]) == [] + [sep] + rest[0];
        } else {
          assert Split(s, sep)[1..] == rest;
        }
      } else {
        var head := [s[0]] + rest[0];
        assert Split(s, sep) == [head] + rest[1..];
        if |rest| == 1 {
          assert Join(rest, [sep]) == rest[0];
        } else {
          assert Join(rest, [sep]) == rest[0] + [sep] + Join(rest[1..], [sep]);
          assert Split(s, sep)[1..] == rest[1..];
        }
      }
    }
  }

  /** Splitting at a separator splits the two halves independently. */
  lemma {:induction false} SplitAppend(a: string, b: string, sep: char)
    ensures Split(a + [sep] + b, sep) == Split(a, sep) + Split(b, sep)
  {
    if a == [] {
      assert a + [sep] + b == [sep] + b;
      assert (a + [sep] + b)[1..] == b;
    } else {
      assert (a + [sep] + b)[1..] == a[1..] + [sep] + b;
      SplitAppend(a[1..], b, sep);
    }
  }

  lemma {:induction false} SplitNoSep(s: string, sep: char)
    requires sep !in s
    ensures Split(s, sep) == [s]
  {
    if s != [] {
      assert sep !in s[1..] by {
        forall i | 0 <= i < |s[1..]| ensures s[1..][i] != sep { assert s[1..][i] == s[i + 1]; }
      }
      SplitNoSep(s[1..], sep);
      assert [s[0]] + s[1..] == s;
    }
  }

  lemma SplitCons(s: string, sep: char)
    requires s != []
    ensures var rest := Split(s[1..], sep);
            Split(s, sep) == if s[0] == sep then [[]] + rest else [[s[0]] + rest[0]] + rest[1..]
  {
  }

  lemma {:induction false} SplitSnoc(s: string, c: char, sep: char)
    requires c != sep
    ensures var r := Split(s, sep);
            Split(s + [c], sep) == r[..|r| - 1] + [r[|r| - 1] + [c]]
  {
    if s == [] {
      assert s + [c] == [c];
      SplitCons([c], sep);
      assert [c][1..] == [];
      var rest := Split([c][1..], sep);
      assert rest == [[]];
      assert [c] + rest[0] == [c];
      assert rest[1..] == [];
      assert Split([c], sep) == [[c]];
      assert [] + [c] == [c];
    } else {
      assert (s + [c])[1..] == s[1..] + [c];
      SplitSnoc(s[1..], c, sep);
      var rest := Split(s[1..], sep);
      var rest' := Split(s[1..] + [c], sep);
      SplitCons(s + [c], sep);
      assert rest' == rest[..|rest| - 1] + [rest[|rest| - 1] + [c]];
      if s[0] == sep {
        var r := Split(s, sep);
        assert r == [[]] + rest;
        assert r[..|r| - 1] == [[]] + rest[..|rest| - 1];
        assert r[|r| - 1] == rest[|rest| - 1];
      } else {
        var r := Split(s, sep);
        assert r == [[s[0]] + rest[0]] + rest[1..];
        assert (s + [c])[0] == s[0];
        if |rest| == 1 {
          assert rest' == [rest[0] + [c]];
          assert [s[0]] + (rest[0] + [c]) == [s[0]] + rest[0] + [c];
        } else {
          assert Split(s + [c], sep) == [[s[0]] + rest'[0]] + rest'[1..];
          assert rest'[1..] == rest[1..|rest| - 1] + [rest[|rest| - 1] + [c]];
        }
      }
    }
  }

  /** Leading whitespace can be dropped without changing the stripped text. */
  lemma StripConsSpace(c: char, x: string)
    requires IsSpace(c)
    ensures Strip([c] + x) == Strip(x)
  {
    assert ([c] + x)[1..] == x;
  }

  lemma LStripAppend(x: string, y: string)
    requires HasNonSpace(x)
    ensures LStrip(x + y) == LStrip(x) + y
  {
    var i :| 0 <= i < |x| && !IsSpace(x[i]);
    LeadingSpacesAppend(x, y, i);
    assert (x + y)[LeadingSpaces(x)..] == x[LeadingSpaces(x)..] + y;
  }

  lemma {:induction false} LeadingSpacesAppend(x: string, y: string, i: nat)
    requires i < |x| && !IsSpace(x[i])
    ensures LeadingSpaces(x + y) == LeadingSpaces(x)
    decreases i
  {
    assert (x + y)[0] == x[0];
    if IsSpace(x[0]) {
      assert x[1..][i - 1] == x[i];
      LeadingSpacesAppend(x[1..], y, i - 1);
      assert (x + y)[1..] == x[1..] + y;
    }
  }

  lemma RStripAppend(x: string, y: string)
    requires HasNonSpace(y)
    ensures RStrip(x + y) == x + RStrip(y)
  {
    var i :| 0 <= i < |y| && !IsSpace(y[i]);
    TrailingStartAppend(x, y, i);
    assert (x + y)[..|x| + TrailingStart(y)] == x + y[..TrailingStart(y)];
  }

  lemma {:induction false} TrailingStartAppend(x: string, y: string, i: nat)
    requires i < |y| && !IsSpace(y[i])
    ensures TrailingStart(x + y) == |x| + TrailingStart(y)
    decreases |y|
  {
    assert (x + y)[|x + y| - 1] == y[|y| - 1];
    if IsSpace(y[|y| - 1]) {
      assert (x + y)[..|x + y| - 1] == x + y[..|y| - 1];
      assert y[..|y| - 1][i] == y[i];
      TrailingStartAppend(x, y[..|y| - 1], i);
    }
  }

  lemma StripSnocSpace(x: string, c: char)
    requires IsSpace(c)
    ensures Strip(x + [c]) == Strip(x)
  {
    if HasNonSpace(x) {
      LStripAppend(x, [c]);
      var l := LStrip(x);
      assert (l + [c])[..|l + [c]| - 1] == l;
    } else {
      assert AllSpace(x + [c]);
      AllSpaceStrip(x + [c]);
      AllSpaceStrip(x);
    }
  }

  lemma {:induction false} AllSpaceStrip(s: string)
    requires AllSpace(s)
    ensures LStrip(s) == [] && Strip(s) == []
  {
    if s != [] {
      AllSpaceStrip(s[1..]);
    }
  }

  lemma StripNoSpaceEnds(s: string)
    requires s != [] && !IsSpace(s[0]) && !IsSpace(s[|s| - 1])
    ensures Strip(s) == s
  {
  }

  /** `s.replace(pat, rep)`: left to right, non-overlapping. */
  function Replace<T(==)>(s: seq<T>, pat: seq<T>, rep: seq<T>): seq<T>
    requires |pat| > 0
    decreases |s|
  {
    if |s| < |pat| then s
    else if s[..|pat|] == pat then rep + Replace(s[|pat|..], pat, rep)
    else [s[0]] + Replace(s[1..], pat, rep)
  }

  predicate StartsWith<T(==)>(s: seq<T>, p: seq<T>) { |p| <= |s| && s[..|p|] == p }

  predicate EndsWith<T(==)>(s: seq<T>, p: seq<T>) { |p| <= |s| && s[|s| - |p|..] == p }

  /** Python's `sub in s`. */
  predicate Contains<T(==)>(s: seq<T>, sub: seq<T>)
    decreases |s|
  {
    StartsWith(s, sub) || (s != [] && Contains(s[1..], sub))
  }

  /** A pattern that never occurs is left alone by `replace`. */
  lemma {:induction false} ReplaceAbsent<T>(s: seq<T>, pat: seq<T>, rep: seq<T>)
    requires |pat| > 0 && !Contains(s, pat)
    ensures Replace(s, pat, rep) == s
    decreases |s|
  {
    if |s| >= |pat| {
      ReplaceAbsent(s[1..], pat, rep);
    }
  }

  /** Replacing one element distributes over concatenation. */
  lemma {:induction false} ReplaceOneAppend<T>(a: seq<T>, b: seq<T>, x: T, rep: seq<T>)
    ensures Replace(a + b, [x], rep) == Replace(a, [x], rep) + Replace(b, [x], rep)
  {
    if a == [] {
      assert a + b == b;
    } else {
      assert (a + b)[1..] == a[1..] + b;
      assert (a + b)[..1] == a[..1];
      ReplaceOneAppend(a[1..], b, x, rep);
      if a[..1] == [x] {
        assert Replace(a, [x], rep) == rep + Replace(a[1..], [x], rep);
        assert Replace(a + b, [x], rep) == rep + Replace(a[1..] + b, [x], rep);
      } else {
        assert Replace(a, [x], rep) == [a[0]] + Replace(a[1..], [x], rep);
        assert Replace(a + b, [x], rep) == [a[0]] + Replace(a[1..] + b, [x], rep);
      }
    }
  }

  /** Replacing one element by a run that does not hold it removes it. */
  lemma {:induction false} ReplaceOneRemoves<T>(s: seq<T>, x: T, rep: seq<T>)
    requires x !in rep
    ensures x !in Replace(s, [x], rep)
  {
    if s != [] {
      ReplaceOneRemoves(s[1..], x, rep);
    }
  }

  lemma {:induction false} ReplaceOneAbsent<T>(s: seq<T>, x: T, rep: seq<T>)
    requires x !in s
    ensures Replace(s, [x], rep) == s
  {
    if s != [] {
      assert x !in s[1..] by {
        forall i | 0 <= i < |s[1..]| ensures s[1..][i] != x { assert s[1..][i] == s[i + 1]; }
      }
      ReplaceOneAbsent(s[1..], x, rep);
    }
  }

  predicate IsDigit(c: char) { '0' <= c <= '9' }

  predicate AllDigits(s: string) { forall i :: 0 <= i < |s| ==> IsDigit(s[i]) }

  function DigitChar(d: nat): (c: char)
    requires d < 10
    ensures IsDigit(c) && (c as int) - ('0' as int) == d
  {
    ['0', '1', '2', '3', '4', '5', '6', '7', '8', '9'][d]
  }

  /** `str(n)` for a non-negative integer. */
  function NatToString(n: nat): (r: string)
    ensures |r| >= 1 && AllDigits(r)
    decreases n
  {
    if n < 10 then [DigitChar(n)] else NatToString(n / 10) + [DigitChar(n % 10)]
  }

  /** `str(i)` (or `'%s' % i`) for any integer. */
  function IntToString(i: int): (r: string)
    ensures |r| >= 1
    ensures i < 0 <==> r[0] == '-'
    ensures i >= 0 ==> AllDigits(r)
  {
    if i < 0 then "-" + NatToString(-i) else NatToString(i)
  }

  /** `int(s)` for a run of ASCII digits. */
  function ParseDigits(s: string): nat
    requires AllDigits(s)
  {
    if s == [] then 0 else ParseDigits(s[..|s| - 1]) * 10 + ((s[|s| - 1] as int) - ('0' as int))
  }

  /** `int(str(n)) == n`. */
  lemma {:induction false} ParseNatToString(n: nat)
    ensures ParseDigits(NatToString(n)) == n
    decreases n
  {
    if n >= 10 {
      ParseNatToString(n / 10);
      var s := NatToString(n);
      assert s[..|s| - 1] == NatToString(n / 10);
    }
  }

  /** The longest run of digits at the start of `s` (what a greedy
    * `[0-9]+` takes). */
  function DigitRun(s: string): (r: string)
    ensures StartsWith(s, r) && AllDigits(r)
    ensures |r| == |s| || !IsDigit(s[|r|])
  {
    if s != [] && IsDigit(s[0]) then [s[0]] + DigitRun(s[1..]) else []
  }

  lemma {:induction false} DigitRunOf(d: string, x: string)
    requires AllDigits(d) && (x == [] || !IsDigit(x[0]))
    ensures DigitRun(d + x) == d
  {
    if d != [] {
      assert (d + x)[1..] == d[1..] + x;
      DigitRunOf(d[1..], x);
    }
  }

  /** Index of the first occurrence of `c`, as `str.find` gives it when it
    * is not -1. */
  function IndexOf<T(==)>(s: seq<T>, c: T): (r: Option<nat>)
    ensures r.None? <==> c !in s
    ensures r.Some? ==> r.value < |s| && s[r.value] == c && c !in s[..r.value]
  {
    if s == [] then None
    else if s[0] == c then Some(0)
    else
      var k := IndexOf(s[1..], c);
      if k.None? then None
      else
        assert s[..k.value + 1] == [s[0]] + s[1..][..k.value];
        Some(k.value + 1)
  }

  lemma {:induction false} IndexOfJoin<T>(a: seq<T>, b: seq<T>, c: T)
    requires c !in a
    ensures IndexOf(a + [c] + b, c) == Some(|a|)
  {
    if a != [] {
      assert c !in a[1..] by {
        forall i | 0 <= i < |a[1..]| ensures a[1..][i] != c { assert a[1..][i] == a[i + 1]; }
      }
      IndexOfJoin(a[1..], b, c);
      assert (a + [c] + b)[1..] == a[1..] + [c] + b;
    }
  }

  /** Python's ASCII-range `str.lower` for one character. */
  function LowerChar(c: char): char
  {
    if 'A' <= c <= 'Z' then ((c as int) + 32) as char else c
  }

  function Lower(s: string): (r: string)
    ensures |r| == |s| && forall i :: 0 <= i < |s| ==> r[i] == LowerChar(s[i])
  {
    if s == [] then [] else [LowerChar(s[0])] + Lower(s[1..])
  }

  /** `os.path.join(a, b)` for two POSIX components. */
  function PathJoin(a: string, b: string): string
  {
    if StartsWith(b, "/") then b
    else if a == [] || EndsWith(a, "/") then a + b
    else a + "/" + b
  }

  /** Position just after the last '/' of `p` (0 when there is none). */
  function AfterLastSlash(p: string): (k: nat)
    ensures k <= |p|
    ensures k > 0 ==> p[k - 1] == '/'
    ensures forall i :: k <= i < |p| ==> p[i] != '/'
  {
    if p == [] then 0
    else if p[|p| - 1] == '/' then |p|
    else AfterLastSlash(p[..|p| - 1])
  }

  function RStripSlashes(s: string): (r: string)
    ensures |r| <= |s| && r == s[..|r|]
  {
    if s != [] && s[|s| - 1] == '/' then RStripSlashes(s[..|s| - 1]) else s
  }

  /** The head of `os.path.split(p)`: everything before the last '/', with
    * trailing slashes dropped unless the head is all slashes. */
  function Dirname(p: string): string
  {
    var head := p[..AfterLastSlash(p)];
    if head != [] && RStripSlashes(head) == [] then head else RStripSlashes(head)
  }

  /** The head of a split is a prefix of the path. */
  lemma DirnamePrefix(p: string)
    ensures StartsWith(p, Dirname(p))
  {
    var head := p[..AfterLastSlash(p)];
    var r := RStripSlashes(head);
    assert r == head[..|r|];
  }

  /** The tail of `os.path.split(p)`. */
  function Basename(p: string): string
  {
    p[AfterLastSlash(p)..]
  }

  /** The list reversed, as `list.reverse()` or `reversed()` leave it. */
  function Reverse<T>(s: seq<T>): (r: seq<T>)
    ensures |r| == |s|
    ensures forall i :: 0 <= i < |s| ==> r[i] == s[|s| - 1 - i]
  {
    if s == [] then [] else Reverse(s[1..]) + [s[0]]
  }

  /** `s[:m]` for a Python integer `m`: a negative `m` counts from the
    * end. */
  function SliceTo<T>(s: seq<T>, m: int): (r: seq<T>)
    ensures |r| <= |s| && r == s[..|r|]
    ensures 0 <= m ==> |r| == if m < |s| then m else |s|
    ensures m < 0 ==> |r| == if |s| + m > 0 then |s| + m else 0
  {
    if m >= 0 then (if m < |s| then s[..m] else s)
    else if |s| + m > 0 then s[..|s| + m]
    else []
  }

  predicate NoDups<T(==)>(s: seq<T>)
  {
    forall i, j :: 0 <= i < j < |s| ==> s[i] != s[j]
  }

  /** `list(set(...))`, keeping first occurrences. */
  function Dedup<T(==,!new)>(s: seq<T>): (r: seq<T>)
    ensures NoDups(r)
    ensures forall x :: x in r <==> x in s
  {
    if s == [] then []
    else if s[|s| - 1] in s[..|s| - 1] then Dedup(s[..|s| - 1])
    else
      assert forall x :: x in s <==> x in s[..|s| - 1] || x == s[|s| - 1] by {
        assert s == s[..|s| - 1] + [s[|s| - 1]];
      }
      Dedup(s[..|s| - 1]) + [s[|s| - 1]]
  }

  /** Consecutive slices of `n` elements, the last one shorter: the
    * groups `s[k - n:k]` for `k` in `range(n, len(s) + n, n)`. */
  function Chunks<T>(s: seq<T>, n: nat): (r: seq<seq<T>>)
    requires n > 0
    ensures forall i :: 0 <= i < |r| ==> 0 < |r[i]| <= n
    decreases |s|
  {
    if s == [] then []
    else if |s| <= n then [s]
    else [s[..n]] + Chunks(s[n..], n)
  }

  function Flatten<T>(ss: seq<seq<T>>): seq<T>
  {
    if ss == [] then [] else ss[0] + Flatten(ss[1..])
  }

  /** The groups put back together give the list again. */
  lemma {:induction false} FlattenChunks<T>(s: seq<T>, n: nat)
    requires n > 0
    ensures Flatten(Chunks(s, n)) == s
    decreases |s|
  {
    if |s| > n {
      FlattenChunks(s[n..], n);
      assert s == s[..n] + s[n..];
    }
  }

  /** Every group but the last is full. */
  lemma {:induction false} ChunksFull<T>(s: seq<T>, n: nat, i: nat)
    requires n > 0 && i + 1 < |Chunks(s, n)|
    ensures |Chunks(s, n)[i]| == n
    decreases |s|
  {
    if i > 0 {
      ChunksFull(s[n..], n, i - 1);
    }
  }

  lemma AppendAssoc<T>(a: seq<T>, b: seq<T>, c: seq<T>)
    ensures (a + b) + c == a + (b + c)
  {
  }
}
