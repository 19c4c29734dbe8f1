/** The parts of the JavaScript built-ins that the date picker relies on, stated
    as in ECMA-262 5.1: `Array.prototype.slice` / `String.prototype.slice`
    (sections 15.4.4.10 and 15.5.4.13), reading an array past its end
    (`undefined`), `String.prototype.indexOf` (15.5.4.7), `replace` with a
    string pattern (15.5.4.11, first occurrence only), `trim` (15.5.4.20,
    restricted to the space character) and `ToString` of a non-negative
    integer Number (9.8.1). */
module Js {

  datatype Option<T> = None | Some(value: T)

  /** `a[i]`: the element, or `undefined` outside the array. */
  function Lookup<T>(s: seq<T>, i: int): Option<T>
  {
    if 0 <= i < |s| then Some(s[i]) else None
  }

  /** How slice turns a relative position into an index: a negative position
      counts from the end, and both ends are clamped into 0..len. */
  function ClampIndex(rel: int, len: nat): (r: nat)
    ensures r <= len
    ensures 0 <= rel <= len ==> r == rel
    ensures rel < 0 && 0 <= len + rel ==> r == len + rel
  {
    if rel < 0 then (if len + rel < 0 then 0 else len + rel)
    else if rel < len then rel else len
  }

  /** `s.slice(start, end)`; `end` is `None` when it is `undefined`. */
  function Slice<T>(s: seq<T>, start: int, end: Option<int>): seq<T>
  {
    var from := ClampIndex(start, |s|);
    var to := if end.None? then |s| else ClampIndex(end.value, |s|);
    if from < to then s[from..to] else []
  }

  /** `s.slice(0, n)` keeps the first `n` elements, or all of them. */
  lemma SlicePrefix<T>(s: seq<T>, n: int)
    requires 0 <= n
    ensures Slice(s, 0, Some(n)) == if n <= |s| then s[..n] else s
  {
  }

  /** `s.slice(0, undefined)` is the whole of `s`. */
  lemma SliceUndefinedEnd<T>(s: seq<T>)
    ensures Slice(s, 0, None) == s
  {
  }

  /** `s.slice(-k)` keeps the last `k` elements when `1 <= k <= |s|`; since
      `-0 == 0`, `s.slice(-0)` is the whole of `s`, not an empty tail. */
  lemma SliceSuffix<T>(s: seq<T>, k: int)
    requires 0 <= k <= |s|
    ensures Slice(s, -k, None) == if k == 0 then s else s[|s| - k..]
  {
  }

  ghost predicate OccursAt<T>(h: seq<T>, n: seq<T>, p: int)
  {
    0 <= p && p + |n| <= |h| && h[p..p + |n|] == n
  }

  /** `h.indexOf(n, from)`: the first position at or after `from` where `n`
      occurs, or -1. */
  function IndexOfFrom<T(==)>(h: seq<T>, n: seq<T>, from: nat): int
    decreases |h| - from
  {
    if from + |n| > |h| then -1
    else if h[from..from + |n|] == n then from
    else IndexOfFrom(h, n, from + 1)
  }

  function IndexOf<T(==)>(h: seq<T>, n: seq<T>): int
  {
    IndexOfFrom(h, n, 0)
  }

  /** The search from `from` finds an occurrence at or after `from` with none
      between `from` and it, or reports -1 when there is none at or after
      `from`. */
  lemma {:induction false} IndexOfFromShape<T>(h: seq<T>, n: seq<T>, from: nat)
    ensures var r := IndexOfFrom(h, n, from);
      && (r == -1 || (from <= r && OccursAt(h, n, r)))
      && (forall p :: from <= p && (r == -1 || p < r) ==> !OccursAt(h, n, p))
    decreases |h| - from
  {
    if from + |n| <= |h| && h[from..from + |n|] != n {
      IndexOfFromShape(h, n, from + 1);
    }
  }

  /** `indexOf` returns -1 exactly when `n` does not occur, and otherwise the
      first position where it occurs. */
  lemma IndexOfSpec<T>(h: seq<T>, n: seq<T>)
    ensures IndexOf(h, n) == -1 <==> forall p :: !OccursAt(h, n, p)
    ensures IndexOf(h, n) != -1 ==>
      OccursAt(h, n, IndexOf(h, n)) && forall p :: p < IndexOf(h, n) ==> !OccursAt(h, n, p)
  {
    IndexOfFromShape(h, n, 0);
  }

  /** A found position leaves room for the pattern. */
  lemma IndexOfBounds<T>(h: seq<T>, n: seq<T>)
    ensures IndexOf(h, n) == -1 || 0 <= IndexOf(h, n) <= |h| - |n|
  {
    IndexOfSpec(h, n);
  }

  /** `h.replace(pat, rep)` for a string pattern: only the first occurrence is
      replaced. */
  function Replace<T(==)>(h: seq<T>, pat: seq<T>, rep: seq<T>): seq<T>
  {
    IndexOfBounds(h, pat);
    var p := IndexOf(h, pat);
    if p < 0 then h else h[..p] + rep + h[p + |pat|..]
  }

  /** `s` shifted by `k` inside a larger sequence keeps its occurrences. */
  lemma OccursInside<T>(h: seq<T>, k: nat, s: seq<T>, n: seq<T>, p: int)
    requires k + |s| <= |h| && h[k..k + |s|] == s
    requires OccursAt(s, n, p)
    ensures OccursAt(h, n, k + p)
  {
    forall j | 0 <= j < |n| ensures h[k + p + j] == n[j] {
      assert h[k + p + j] == s[p + j] == s[p..p + |n|][j];
    }
    assert h[k + p..k + p + |n|] == n;
  }

  /** Removing leading spaces. */
  function TrimStart(s: string): string
  {
    if s != [] && s[0] == ' ' then TrimStart(s[1..]) else s
  }

  /** Removing trailing spaces. */
  function TrimEnd(s: string): string
  {
    if s != [] && s[|s| - 1] == ' ' then TrimEnd(s[..|s| - 1]) else s
  }

  /** What `TrimStart` keeps is a suffix that does not start with a space,
      and what it removes is all spaces. */
  lemma {:induction false} TrimStartShape(s: string)
    ensures var r := TrimStart(s);
      && |r| <= |s| && r == s[|s| - |r|..]
      && (r == [] || r[0] != ' ')
      && (forall i :: 0 <= i < |s| - |r| ==> s[i] == ' ')
  {
    if s != [] && s[0] == ' ' {
      var t := s[1..];
      TrimStartShape(t);
      var r := TrimStart(t);
      assert TrimStart(s) == r;
      assert r == s[|s| - |r|..] by {
        assert t[|t| - |r|..] == s[|s| - |r|..];
      }
      forall i | 0 <= i < |s| - |r| ensures s[i] == ' ' {
        if i > 0 {
          assert s[i] == t[i - 1];
        }
      }
    }
  }

  /** What `TrimEnd` keeps is a prefix that does not end with a space, and
      what it removes is all spaces. */
  lemma {:induction false} TrimEndShape(s: string)
    ensures var r := TrimEnd(s);
      && |r| <= |s| && r == s[..|r|]
      && (r == [] || r[|r| - 1] != ' ')
      && (forall i :: |r| <= i < |s| ==> s[i] == ' ')
  {
    if s != [] && s[|s| - 1] == ' ' {
      var t := s[..|s| - 1];
      TrimEndShape(t);
      var r := TrimEnd(t);
      assert TrimEnd(s) == r;
      assert r == s[..|r|] by {
        assert t[..|r|] == s[..|r|];
      }
      forall i | |r| <= i < |s| ensures s[i] == ' ' {
        if i < |s| - 1 {
          assert s[i] == t[i];
        }
      }
    }
  }

  ghost predicate Trimmed(s: string)
  {
    s == [] || (s[0] != ' ' && s[|s| - 1] != ' ')
  }

  function Trim(s: string): (r: string)
    ensures Trimmed(r)
  {
    TrimStartShape(s);
    TrimEndShape(TrimStart(s));
    TrimEnd(TrimStart(s))
  }

  /** `Trim(s)` is the slice of `s` between a run of leading and a run of
      trailing spaces. */
  lemma TrimIsInfix(s: string) returns (a: nat)
    ensures a + |Trim(s)| <= |s| && s[a..a + |Trim(s)|] == Trim(s)
    ensures forall i :: 0 <= i < a ==> s[i] == ' '
    ensures forall i :: a + |Trim(s)| <= i < |s| ==> s[i] == ' '
  {
    var u := TrimStart(s);
    TrimStartShape(s);
    a := |s| - |u|;
    var t := TrimEnd(u);
    TrimEndShape(u);
    assert t == Trim(s);
    forall j | 0 <= j < |t| ensures t[j] == s[a..a + |t|][j] {
      assert t[j] == u[j] == s[a + j];
    }
    forall i | a + |t| <= i < |s| ensures s[i] == ' ' {
      assert s[i] == u[i - a];
    }
  }

  /** Trimming a trimmed string changes nothing. */
  lemma TrimTrimmed(s: string)
    requires Trimmed(s)
    ensures Trim(s) == s
  {
    assert TrimStart(s) == s;
  }

  /** A trimmed string padded by one space on each side trims back to itself. */
  lemma TrimPadded(t: string)
    requires Trimmed(t)
    ensures Trim(" " + t + " ") == t
  {
    var p := " " + t + " ";
    var q := t + " ";
    assert TrimStart(p) == TrimStart(q) by { assert p[1..] == q; }
    if t == [] {
      assert TrimStart(q) == TrimStart(q[1..]) && q[1..] == [];
    } else {
      assert TrimStart(q) == q;
      assert TrimEnd(q) == TrimEnd(t) by { assert q[..|q| - 1] == t; }
      assert TrimEnd(t) == t;
    }
  }

  function Digit(d: nat): (c: char)
    requires d < 10
    ensures '0' <= c <= '9'
  {
    "0123456789"[d]
  }

  function DigitValue(c: char): int
  {
    c as int - '0' as int
  }

  /** The decimal digits of `n`, most significant first, without leading zeros. */
  function NatToString(n: nat): string
  {
    if n < 10 then [Digit(n)] else NatToString(n / 10) + [Digit(n % 10)]
  }

  /** A JavaScript number written as a string: a minus sign before negatives. */
  function IntToString(i: int): string
  {
    if i < 0 then "-" + NatToString(-i) else NatToString(i)
  }

  /** The decimal string is all digits, ends in the last digit of `n`, and
      is one character long exactly for a single digit. */
  lemma {:induction false} NatToStringShape(n: nat)
    ensures var r := NatToString(n);
      && 1 <= |r|
      && (forall i :: 0 <= i < |r| ==> '0' <= r[i] <= '9')
      && r[|r| - 1] == Digit(n % 10)
      && (n < 10 <==> |r| == 1)
  {
    if n >= 10 {
      NatToStringShape(n / 10);
      var u := NatToString(n / 10);
      assert NatToString(n) == u + [Digit(n % 10)];
    }
  }

  /** Reads a string of decimal digits back as a number (the partner of
      `NatToString`). */
  function ParseDecimal(s: string): int
  {
    if s == [] then 0 else 10 * ParseDecimal(s[..|s| - 1]) + DigitValue(s[|s| - 1])
  }

  lemma DigitRoundTrip(d: nat)
    requires d < 10
    ensures DigitValue(Digit(d)) == d
  {
  }

  lemma {:induction false} NatToStringRoundTrip(n: nat)
    ensures ParseDecimal(NatToString(n)) == n
  {
    DigitRoundTrip(n % 10);
    NatToStringShape(n);
    if n >= 10 {
      var s := NatToString(n);
      assert s[..|s| - 1] == NatToString(n / 10);
      NatToStringRoundTrip(n / 10);
    }
  }
}
