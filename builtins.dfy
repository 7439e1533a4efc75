/**
 * The few Python built-ins the P2000 sensor relies on, stated over Dafny values:
 * optional values, the exceptions an update cycle can raise, `str.split`,
 * the slice `s[:-n]`, `str.replace(c, "")` and `round`.
 */
module Builtins {

  datatype Option<+T> = None | Some(value: T)

  /** The Python exceptions that can arise inside one update cycle. */
  datatype Error = ValueError | IndexError | KeyError | UnboundLocalError

  /** A computation that either returns a value or raises one of the exceptions above. */
  datatype Result<+T> = Ok(value: T) | Raise(error: Error)

  /** `sep.join(parts)`, defined for the non-empty lists that `str.split` produces. */
  function Join(parts: seq<string>, sep: char): string
    requires |parts| > 0
    decreases |parts|
  {
    if |parts| == 1 then parts[0] else parts[0] + [sep] + Join(parts[1..], sep)
  }

  /**
   * `s.split(sep)` for a one-character separator: the maximal separator-free
   * pieces of `s`, in order; there is always at least one (`"".split(",") == [""]`).
   */
  function Split(s: string, sep: char): (parts: seq<string>)
    ensures |parts| > 0
    ensures forall i :: 0 <= i < |parts| ==> sep !in parts[i]
    ensures Join(parts, sep) == s
    ensures |parts| == 1 <==> sep !in s
    decreases |s|
  {
    if s == [] then [""]
    else
      var rest := Split(s[1..], sep);
      if s[0] == sep then [""] + rest
      else [[s[0]] + rest[0]] + rest[1..]
  }

  /** Splitting a joined list of separator-free pieces gives the pieces back. */
  lemma {:induction false} SplitJoin(parts: seq<string>, sep: char)
    requires |parts| > 0
    requires forall i :: 0 <= i < |parts| ==> sep !in parts[i]
    ensures Split(Join(parts, sep), sep) == parts
    decreases |parts|, |parts[0]|
  {
    if |parts| == 1 {
      SplitOfSeparatorFree(parts[0], sep);
    } else if parts[0] == [] {
      var tail := Join(parts[1..], sep);
      assert Join(parts, sep) == [sep] + tail;
      assert ([sep] + tail)[1..] == tail;
      SplitJoin(parts[1..], sep);
      assert parts == [""] + parts[1..];
    } else {
      var c := parts[0][0];
      var shorter := [parts[0][1..]] + parts[1..];
      assert shorter[1..] == parts[1..];
      assert Join(shorter, sep) == parts[0][1..] + [sep] + Join(parts[1..], sep);
      assert Join(parts, sep) == [c] + Join(shorter, sep);
      assert ([c] + Join(shorter, sep))[1..] == Join(shorter, sep);
      forall i | 0 <= i < |shorter| ensures sep !in shorter[i] {
        if i == 0 {
          assert parts[0] == [c] + parts[0][1..];
        } else {
          assert shorter[i] == parts[i];
        }
      }
      SplitJoin(shorter, sep);
      assert parts[0] == [c] + parts[0][1..];
      assert parts == [[c] + shorter[0]] + shorter[1..];
    }
  }

  /** A string without the separator splits into itself. */
  lemma {:induction false} SplitOfSeparatorFree(s: string, sep: char)
    requires sep !in s
    ensures Split(s, sep) == [s]
    decreases |s|
  {
    if s != [] {
      SplitOfSeparatorFree(s[1..], sep);
      assert s == [s[0]] + s[1..];
    }
  }

  /** Splitting at a first separator: the piece before it, then the split of the rest. */
  lemma {:induction false} SplitAtFirst(a: string, b: string, sep: char)
    requires sep !in a
    ensures Split(a + [sep] + b, sep) == [a] + Split(b, sep)
    decreases |a|
  {
    if a == [] {
      assert a + [sep] + b == [sep] + b;
      assert ([sep] + b)[1..] == b;
    } else {
      var w := a + [sep] + b;
      assert w[0] == a[0] && a[0] != sep;
      assert w[1..] == a[1..] + [sep] + b;
      assert sep !in a[1..] by {
        forall i | 0 <= i < |a[1..]| ensures a[1..][i] != sep {
          assert a[1..][i] == a[i + 1];
        }
      }
      SplitAtFirst(a[1..], b, sep);
      var rest := Split(w[1..], sep);
      assert rest == [a[1..]] + Split(b, sep);
      assert Split(w, sep) == [[w[0]] + rest[0]] + rest[1..];
      assert [w[0]] + rest[0] == a;
    }
  }

  /** `s[:-n]` for `n >= 1`: everything but the last `n` characters, or "" when `s` is shorter. */
  function DropLast(s: string, n: nat): (r: string)
    requires n > 0
    ensures |r| == if |s| >= n then |s| - n else 0
    ensures r <= s
    ensures |s| >= n ==> r + s[|s| - n..] == s
  {
    if |s| >= n then s[..|s| - n] else ""
  }

  /** `s.replace(c, "")`: `s` with every occurrence of `c` deleted, the rest in order. */
  function RemoveAll(s: string, c: char): (r: string)
    ensures c !in r
    ensures |r| == |s| - multiset(s)[c]
    ensures forall d :: d != c ==> multiset(r)[d] == multiset(s)[d]
    decreases |s|
  {
    if s == [] then ""
    else
      assert s == [s[0]] + s[1..];
      if s[0] == c then RemoveAll(s[1..], c) else [s[0]] + RemoveAll(s[1..], c)
  }

  /** Deleting a character distributes over concatenation. */
  lemma {:induction false} RemoveAllAppend(a: string, b: string, c: char)
    ensures RemoveAll(a + b, c) == RemoveAll(a, c) + RemoveAll(b, c)
    decreases |a|
  {
    if a == [] {
      assert a + b == b;
    } else {
      assert (a + b)[0] == a[0] && (a + b)[1..] == a[1..] + b;
      RemoveAllAppend(a[1..], b, c);
    }
  }

  /** A string that does not contain `c` is left as it is. */
  lemma {:induction false} RemoveAllAbsent(s: string, c: char)
    requires c !in s
    ensures RemoveAll(s, c) == s
    decreases |s|
  {
    if s != [] {
      RemoveAllAbsent(s[1..], c);
      assert s == [s[0]] + s[1..];
    }
  }

  /**
   * Python 3 `round(x)` on a number: the nearest integer, ties to the even one.
   */
  function RoundHalfEven(x: real): (r: int)
    ensures -(1.0 / 2.0) <= r as real - x <= 1.0 / 2.0
    ensures (r as real - x == 1.0 / 2.0 || x - r as real == 1.0 / 2.0) ==> r % 2 == 0
  {
    var f := x.Floor;
    var frac := x - f as real;
    if frac < 1.0 / 2.0 then f
    else if frac > 1.0 / 2.0 then f + 1
    else if f % 2 == 0 then f
    else f + 1
  }
}
