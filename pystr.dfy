/**
 * The Python built-ins on strings and lists that the pytex sources rely on,
 * written out with Python's own semantics: `find` answers -1 when the pattern
 * is absent, slices accept negative and out-of-range bounds, `split` and
 * `replace` work left to right on non-overlapping occurrences, and failing
 * operations raise one of Python's exceptions.
 */
module PyStr {

  /** The Python exceptions the modelled code can raise. */
  datatype PyError = IndexError | TypeError | ValueError | KeyError | NameError | AttributeError | RecursionError

  datatype Option<+T> = None | Some(value: T)

  /** A Python call that either returns a value or raises. */
  datatype Result<+T> = Ok(value: T) | Err(error: PyError)

  /** A result with `xs` put in front of its value; an error stays as it is. */
  function Prepend<T>(xs: seq<T>, r: Result<seq<T>>): Result<seq<T>>
  {
    match r
    case Ok(v) => Ok(xs + v)
    case Err(e) => Err(e)
  }

  lemma PrependNothing<T>(r: Result<seq<T>>)
    ensures Prepend([], r) == r
  {
    if r.Ok? {
      assert [] + r.value == r.value;
    }
  }

  lemma PrependTwice<T>(xs: seq<T>, ys: seq<T>, r: Result<seq<T>>)
    ensures Prepend(xs, Prepend(ys, r)) == Prepend(xs + ys, r)
  {
    if r.Ok? {
      assert xs + (ys + r.value) == (xs + ys) + r.value;
    }
  }

  /** `pat` occurs in `s` at index `i`. */
  predicate OccursAt(s: string, pat: string, i: int)
  {
    0 <= i && i + |pat| <= |s| && s[i..i + |pat|] == pat
  }

  lemma OccursAtTail(s: string, pat: string, j: int)
    requires |s| > 0 && 0 <= j
    ensures OccursAt(s[1..], pat, j) <==> OccursAt(s, pat, j + 1)
  {
    if 0 <= j && j + |pat| <= |s| - 1 {
      assert s[1..][j..j + |pat|] == s[j + 1..j + 1 + |pat|];
    }
    if OccursAt(s, pat, j + 1) {
      assert s[1..][j..j + |pat|] == s[j + 1..j + 1 + |pat|];
    }
  }

  /** `str.find`: the first index at which `pat` occurs, or -1. */
  function Find(s: string, pat: string): (r: int)
    ensures -1 <= r <= |s|
    ensures r >= 0 ==> OccursAt(s, pat, r)
    ensures r >= 0 ==> forall j :: 0 <= j < r ==> !OccursAt(s, pat, j)
    ensures r == -1 ==> forall j :: !OccursAt(s, pat, j)
    decreases |s|
  {
    if |s| < |pat| then -1
    else if s[..|pat|] == pat then 0
    else
      var k := Find(s[1..], pat);
      forall j | 0 <= j ensures OccursAt(s[1..], pat, j) <==> OccursAt(s, pat, j + 1) {
        OccursAtTail(s, pat, j);
      }
      forall j | 0 < j ensures OccursAt(s, pat, j) <==> OccursAt(s[1..], pat, j - 1) {
        OccursAtTail(s, pat, j - 1);
      }
      if k == -1 then -1 else k + 1
  }

  /** An occurrence with none before it is the one `find` reports. */
  lemma FindIs(s: string, pat: string, p: int)
    requires OccursAt(s, pat, p)
    requires forall j :: 0 <= j < p ==> !OccursAt(s, pat, j)
    ensures Find(s, pat) == p
  {
  }

  /** Python's `pat in s`. */
  predicate Contains(s: string, pat: string)
  {
    Find(s, pat) >= 0
  }

  lemma ContainsIff(s: string, pat: string)
    ensures Contains(s, pat) <==> exists j :: OccursAt(s, pat, j)
  {
    if Contains(s, pat) {
      assert OccursAt(s, pat, Find(s, pat));
    }
  }

  /** `str.rfind` for one character: the last index holding `c`, or -1. */
  function RFind(s: string, c: char): (r: int)
    ensures -1 <= r < |s|
    ensures r >= 0 ==> s[r] == c && forall j :: r < j < |s| ==> s[j] != c
    ensures r == -1 ==> forall j :: 0 <= j < |s| ==> s[j] != c
    decreases |s|
  {
    if |s| == 0 then -1
    else if s[|s| - 1] == c then |s| - 1
    else RFind(s[..|s| - 1], c)
  }

  predicate StartsWith(s: string, prefix: string)
  {
    |prefix| <= |s| && s[..|prefix|] == prefix
  }

  predicate EndsWith(s: string, suffix: string)
  {
    |suffix| <= |s| && s[|s| - |suffix|..] == suffix
  }

  /** Python's treatment of a slice bound against a sequence of length n. */
  function Clamp(i: int, n: nat): (r: nat)
    ensures r <= n
    ensures 0 <= i <= n ==> r == i
  {
    if i < 0 then (if i + n < 0 then 0 else i + n)
    else if i > n then n
    else i
  }

  /** `s[i:j]` with Python's negative and out-of-range bounds. */
  function Slice<T>(s: seq<T>, i: int, j: int): (r: seq<T>)
    ensures |r| <= |s|
    ensures 0 <= i <= j <= |s| ==> r == s[i..j]
    ensures 0 <= j <= i ==> r == []
  {
    var a := Clamp(i, |s|);
    var b := Clamp(j, |s|);
    if a < b then s[a..b] else []
  }

  /** `xs[i]` with Python's negative indices; IndexError outside. */
  function At<T>(xs: seq<T>, i: int): (r: Result<T>)
    ensures r.Ok? <==> -|xs| <= i < |xs|
    ensures 0 <= i < |xs| ==> r == Ok(xs[i])
    ensures -|xs| <= i < 0 ==> r == Ok(xs[|xs| + i])
  {
    if 0 <= i < |xs| then Ok(xs[i])
    else if -|xs| <= i < 0 then Ok(xs[|xs| + i])
    else Err(IndexError)
  }

  /** `list.index`: the first position holding `x`; ValueError when absent. */
  function IndexOf<T(==)>(xs: seq<T>, x: T): (r: Result<nat>)
    ensures r.Ok? <==> x in xs
    ensures r.Ok? ==> r.value < |xs| && xs[r.value] == x && x !in xs[..r.value]
  {
    if |xs| == 0 then Err(ValueError)
    else if xs[0] == x then Ok(0)
    else
      match IndexOf(xs[1..], x)
      case Ok(k) =>
        assert xs[..k + 1] == [xs[0]] + xs[1..][..k];
        Ok(k + 1)
      case Err(e) => Err(e)
  }

  /** `str.split(sep)` for a non-empty separator. */
  function Split(s: string, sep: string): (r: seq<string>)
    requires |sep| > 0
    ensures |r| >= 1
    ensures Find(s, sep) == -1 <==> r == [s]
    ensures Find(s, sep) >= 0 ==> r[0] == s[..Find(s, sep)] && |r| >= 2
    decreases |s|
  {
    var i := Find(s, sep);
    if i < 0 then [s] else [s[..i]] + Split(s[i + |sep|..], sep)
  }

  /** `sep.join(parts)`. */
  function Join(parts: seq<string>, sep: string): string
  {
    if |parts| == 0 then ""
    else if |parts| == 1 then parts[0]
    else parts[0] + sep + Join(parts[1..], sep)
  }

  lemma JoinCons(p: string, rest: seq<string>, sep: string)
    requires |rest| >= 1
    ensures Join([p] + rest, sep) == p + sep + Join(rest, sep)
  {
    var parts := [p] + rest;
    assert parts[1..] == rest;
  }

  /** Joining back what `split` cut gives the original string. */
  lemma {:induction false} JoinSplit(s: string, sep: string)
    requires |sep| > 0
    ensures Join(Split(s, sep), sep) == s
    decreases |s|
  {
    var i := Find(s, sep);
    if i >= 0 {
      var rest := s[i + |sep|..];
      var parts := Split(rest, sep);
      JoinSplit(rest, sep);
      assert Split(s, sep) == [s[..i]] + parts;
      JoinCons(s[..i], parts, sep);
      assert s[i..i + |sep|] == sep;
      assert s == s[..i] + s[i..i + |sep|] + rest;
    }
  }

  /** A string in which the one-character separator does not occur. */
  predicate Free(s: string, c: char)
  {
    forall k :: 0 <= k < |s| ==> s[k] != c
  }

  lemma FreePrefix(s: string, c: char, m: nat)
    requires Free(s, c) && m <= |s|
    ensures Free(s[..m], c)
  {
    assert forall k :: 0 <= k < m ==> s[..m][k] == s[k];
  }

  lemma FindChar(s: string, c: char, i: int)
    requires 0 <= i <= |s|
    requires Free(s[..i], c)
    ensures i < |s| && s[i] == c ==> Find(s, [c]) == i
    ensures i == |s| ==> Find(s, [c]) == -1
  {
    forall j | 0 <= j < i ensures !OccursAt(s, [c], j) {
      assert s[..i][j] == s[j] != c;
      assert j + 1 <= |s| && s[j..j + 1][0] == s[j];
    }
    if i < |s| && s[i] == c {
      assert OccursAt(s, [c], i);
    }
  }

  /** Splitting on one character undoes joining pieces free of it. */
  lemma {:induction false} SplitJoin(parts: seq<string>, c: char)
    requires |parts| >= 1
    requires forall k :: 0 <= k < |parts| ==> Free(parts[k], c)
    ensures Split(Join(parts, [c]), [c]) == parts
    decreases |parts|
  {
    var s := Join(parts, [c]);
    if |parts| == 1 {
      FindChar(s, c, |s|);
    } else {
      var p := parts[0];
      var rest := Join(parts[1..], [c]);
      assert s == p + [c] + rest;
      assert s[..|p|] == p;
      FindChar(s, c, |p|);
      assert s[|p| + 1..] == rest;
      SplitJoin(parts[1..], c);
    }
  }

  /** Splitting on a character cuts at its first occurrence. */
  lemma SplitFirst(a: string, c: char, b: string)
    requires Free(a, c)
    ensures Split(a + [c] + b, [c]) == [a] + Split(b, [c])
  {
    var s := a + [c] + b;
    assert s[..|a|] == a;
    FindChar(s, c, |a|);
    assert s[|a| + 1..] == b;
  }

  /** A string free of the separator character is not cut. */
  lemma SplitNone(a: string, c: char)
    requires Free(a, c)
    ensures Split(a, [c]) == [a]
  {
    FindChar(a, c, |a|);
  }

  /** Four blank-free words joined by blanks split back into those words. */
  lemma SplitFour(a: string, b: string, c: string, d: string)
    requires Free(a, ' ') && Free(b, ' ') && Free(c, ' ') && Free(d, ' ')
    ensures Split(a + " " + b + " " + c + " " + d, " ") == [a, b, c, d]
  {
    var sp := [' '];
    assert sp == " ";
    var r3 := c + sp + d;
    var r2 := b + sp + r3;
    var r1 := a + sp + r2;
    assert a + " " + b + " " + c + " " + d == r1;
    SplitNone(d, ' ');
    SplitFirst(c, ' ', d);
    assert Split(r3, sp) == [c] + [d] == [c, d];
    SplitFirst(b, ' ', r3);
    assert Split(r2, sp) == [b] + [c, d] == [b, c, d];
    SplitFirst(a, ' ', r2);
    ConsThree(a, Split(r2, sp), b, c, d);
  }

  lemma ConsThree<T>(a: T, rest: seq<T>, b: T, c: T, d: T)
    requires rest == [b, c, d]
    ensures [a] + rest == [a, b, c, d]
  {
  }

  /** A separator whose first character occurs in neither side cuts the string in two. */
  lemma SplitOnce(a: string, sep: string, b: string)
    requires |sep| > 0 && Free(a, sep[0]) && Free(b, sep[0])
    ensures Split(a + sep + b, sep) == [a, b]
  {
    var s := a + sep + b;
    assert s[|a|..|a| + |sep|] == sep;
    forall j | 0 <= j < |a| ensures !OccursAt(s, sep, j) {
      assert s[j] == a[j] != sep[0];
      assert j + |sep| <= |s| ==> s[j..j + |sep|][0] == s[j];
    }
    FindIs(s, sep, |a|);
    assert s[..|a|] == a;
    assert s[|a| + |sep|..] == b;
    FreeNotContains(b, sep);
    assert Split(b, sep) == [b];
    assert Split(s, sep) == [a] + Split(b, sep);
  }

  /**
   * A two-character separator whose characters differ cannot straddle the
   * end of a piece that holds none: splitting cuts right after that piece.
   */
  lemma SplitAfter(a: string, sep: string, b: string)
    requires |sep| == 2 && sep[0] != sep[1] && !Contains(a, sep)
    ensures Split(a + sep + b, sep) == [a] + Split(b, sep)
  {
    var s := a + sep + b;
    assert s[|a|..|a| + 2] == sep;
    forall j | 0 <= j < |a|
      ensures !OccursAt(s, sep, j)
    {
      if j + 2 <= |a| {
        assert s[j..j + 2] == a[j..j + 2];
        assert !OccursAt(a, sep, j);
      } else {
        assert s[j + 1] == sep[0];
      }
    }
    FindIs(s, sep, |a|);
    assert s[..|a|] == a;
    assert s[|a| + 2..] == b;
  }

  lemma OccursAtPrefix(s: string, pat: string, i: int, j: int)
    requires 0 <= j && j + |pat| <= i <= |s|
    ensures OccursAt(s[..i], pat, j) <==> OccursAt(s, pat, j)
  {
    assert s[..i][j..j + |pat|] == s[j..j + |pat|];
  }

  /** No piece that `split` returns holds the separator. */
  lemma {:induction false} SplitPartsWithout(s: string, sep: string)
    requires |sep| > 0
    ensures forall k :: 0 <= k < |Split(s, sep)| ==> !Contains(Split(s, sep)[k], sep)
    decreases |s|
  {
    var i := Find(s, sep);
    if i >= 0 {
      var first := s[..i];
      forall j | 0 <= j
        ensures !OccursAt(first, sep, j)
      {
        if j + |sep| <= i {
          OccursAtPrefix(s, sep, i, j);
        }
      }
      ContainsIff(first, sep);
      var rest := s[i + |sep|..];
      SplitPartsWithout(rest, sep);
      var parts, tail := Split(s, sep), Split(rest, sep);
      assert parts == [first] + tail;
      forall k | 0 <= k < |parts|
        ensures !Contains(parts[k], sep)
      {
        if k > 0 {
          assert parts[k] == tail[k - 1];
        }
      }
    }
  }

  /** `s.replace(target, by)` when `target` is empty: `with` goes around every character. */
  function InsertAround(s: string, with: string): string
    decreases |s|
  {
    if |s| == 0 then with else with + [s[0]] + InsertAround(s[1..], with)
  }

  /** `str.replace`: every non-overlapping occurrence, left to right. */
  function Replace(s: string, target: string, with: string): string
  {
    if |target| == 0 then InsertAround(s, with) else Join(Split(s, target), with)
  }

  /** Replacing a pattern that does not occur changes nothing. */
  lemma ReplaceAbsent(s: string, target: string, with: string)
    requires |target| > 0 && !Contains(s, target)
    ensures Replace(s, target, with) == s
  {
  }

  /** The letters of the `[A-Za-z]` regex class. */
  predicate IsAsciiLetter(c: char)
  {
    'A' <= c <= 'Z' || 'a' <= c <= 'z'
  }

  /** The characters `str.isspace` accepts. */
  predicate IsSpace(c: char)
  {
    c == ' ' || c == '\t' || c == '\n' || c == '\r' || c == '\U{0b}' || c == '\U{0c}'
    || c == '\U{1c}' || c == '\U{1d}' || c == '\U{1e}' || c == '\U{1f}' || c == '\U{85}'
    || c == '\U{a0}' || c == '\U{1680}' || ('\U{2000}' <= c <= '\U{200a}')
    || c == '\U{2028}' || c == '\U{2029}' || c == '\U{202f}' || c == '\U{205f}' || c == '\U{3000}'
  }

  /** `str.strip()` without arguments. */
  function Strip(s: string): (r: string)
    ensures |r| <= |s|
    decreases |s|
  {
    if |s| == 0 then s
    else if IsSpace(s[0]) then Strip(s[1..])
    else if IsSpace(s[|s| - 1]) then Strip(s[..|s| - 1])
    else s
  }

  /** The line boundaries of `str.splitlines`. */
  predicate IsLineBreak(c: char)
  {
    c == '\n' || c == '\r' || c == '\U{0b}' || c == '\U{0c}' || c == '\U{1c}' || c == '\U{1d}'
    || c == '\U{1e}' || c == '\U{85}' || c == '\U{2028}' || c == '\U{2029}'
  }

  function FirstBreak(s: string): (i: nat)
    ensures i <= |s|
    ensures i < |s| ==> IsLineBreak(s[i])
    ensures forall k :: 0 <= k < i ==> !IsLineBreak(s[k])
    decreases |s|
  {
    if |s| == 0 then 0 else if IsLineBreak(s[0]) then 0 else 1 + FirstBreak(s[1..])
  }

  /** `str.splitlines()`: no line holds a break, "\r\n" counts as one, no empty last line. */
  function SplitLines(s: string): (r: seq<string>)
    ensures forall k, m :: 0 <= k < |r| && 0 <= m < |r[k]| ==> !IsLineBreak(r[k][m])
    decreases |s|
  {
    if |s| == 0 then []
    else
      var i := FirstBreak(s);
      if i == |s| then [s]
      else
        var w := if s[i] == '\r' && i + 1 < |s| && s[i + 1] == '\n' then 2 else 1;
        [s[..i]] + SplitLines(s[i + w..])
  }

  /** `str.lower()` on ASCII letters. */
  function Lower(s: string): (r: string)
    ensures |r| == |s|
    ensures forall k :: 0 <= k < |s| ==> !('A' <= r[k] <= 'Z')
  {
    seq(|s|, k requires 0 <= k < |s| =>
      if 'A' <= s[k] <= 'Z' then (s[k] as int + 32) as char else s[k])
  }

  /** Concatenation of a list of strings (`"".join`). */
  function Concat(parts: seq<string>): string
  {
    if |parts| == 0 then "" else parts[0] + Concat(parts[1..])
  }

  lemma {:induction false} ConcatAppend(a: seq<string>, b: seq<string>)
    ensures Concat(a + b) == Concat(a) + Concat(b)
    decreases |a|
  {
    if |a| > 0 {
      assert (a + b)[1..] == a[1..] + b;
      ConcatAppend(a[1..], b);
      assert Concat(a + b) == a[0] + Concat(a[1..] + b);
    } else {
      assert a + b == b;
    }
  }

  lemma ConcatSnoc(a: seq<string>, x: string)
    ensures Concat(a + [x]) == Concat(a) + x
  {
    ConcatAppend(a, [x]);
    assert Concat([x]) == x + Concat([]);
  }

  /** A character of `0123456789`. */
  predicate IsDigit(c: char)
  {
    '0' <= c <= '9'
  }

  /** `str(n)` for a natural number: its decimal digits, most significant first. */
  function DecimalString(n: nat): (r: string)
    ensures |r| >= 1 && forall k :: 0 <= k < |r| ==> IsDigit(r[k])
    decreases n
  {
    var last := ['0' + (n % 10) as char];
    if n < 10 then last else DecimalString(n / 10) + last
  }

  /** The number a string of decimal digits denotes (what `int(s)` reads). */
  function DecimalValue(s: string): nat
    requires forall k :: 0 <= k < |s| ==> IsDigit(s[k])
    decreases |s|
  {
    if |s| == 0 then 0
    else
      assert IsDigit(s[|s| - 1]);
      10 * DecimalValue(s[..|s| - 1]) + (s[|s| - 1] as int - '0' as int)
  }

  /** Reading back the digits `str` wrote gives the number. */
  lemma {:induction false} DecimalRoundTrip(n: nat)
    ensures DecimalValue(DecimalString(n)) == n
    decreases n
  {
    var r := DecimalString(n);
    if n >= 10 {
      DecimalRoundTrip(n / 10);
      assert r[..|r| - 1] == DecimalString(n / 10);
    }
  }

  /** A string without `c` keeps none when joined with a separator without `c`. */
  lemma {:induction false} JoinFree(parts: seq<string>, sep: string, c: char)
    requires forall k :: 0 <= k < |parts| ==> Free(parts[k], c)
    requires Free(sep, c)
    ensures Free(Join(parts, sep), c)
    decreases |parts|
  {
    if |parts| > 1 {
      JoinFree(parts[1..], sep, c);
    }
  }

  /** A pattern whose first character does not occur is not found. */
  lemma FreeNotContains(s: string, pat: string)
    requires |pat| > 0 && Free(s, pat[0])
    ensures !Contains(s, pat)
  {
  }
}
