/** Sequence helpers shared by the chunker and the prompt builder: flattening,
    Python's `sep.join(parts)` and Python's `s.split(sep)` for a one-element
    separator, with the lemmas that tie them together. */
module Seqs {

  /** All pieces concatenated in order. */
  function Flatten<T>(ss: seq<seq<T>>): seq<T>
  {
    if |ss| == 0 then [] else ss[0] + Flatten(ss[1..])
  }

  /** `sep.join(parts)`: the parts in order with `sep` between neighbours; the
      empty list joins to the empty sequence. */
  function Join<T>(sep: seq<T>, parts: seq<seq<T>>): seq<T>
  {
    if |parts| == 0 then []
    else if |parts| == 1 then parts[0]
    else parts[0] + sep + Join(sep, parts[1..])
  }

  /** Every part with `sep` in front of it. */
  function Prefixed<T>(sep: seq<T>, parts: seq<seq<T>>): (prefixed: seq<seq<T>>)
    ensures |prefixed| == |parts|
  {
    if |parts| == 0 then [] else [sep + parts[0]] + Prefixed(sep, parts[1..])
  }

  /** A non-empty join is the first part followed by every later part with the
      separator in front of it. */
  lemma {:induction false} JoinIsFirstThenPrefixed<T>(sep: seq<T>, parts: seq<seq<T>>)
    requires |parts| >= 1
    ensures Join(sep, parts) == parts[0] + Flatten(Prefixed(sep, parts[1..]))
    decreases |parts|
  {
    var rest := parts[1..];
    if |parts| == 1 {
      assert Prefixed(sep, rest) == [];
    } else {
      JoinIsFirstThenPrefixed(sep, rest);
      var tail := Flatten(Prefixed(sep, rest[1..]));
      assert Prefixed(sep, rest)[1..] == Prefixed(sep, rest[1..]);
      assert Flatten(Prefixed(sep, rest)) == (sep + rest[0]) + tail;
      assert parts[0] + sep + (rest[0] + tail) == parts[0] + ((sep + rest[0]) + tail);
    }
  }

  /** `s.split(sep)`: the pieces between occurrences of `sep`. There is always at
      least one piece and no piece holds `sep`. */
  function SplitOn<T(==)>(sep: T, s: seq<T>): (pieces: seq<seq<T>>)
    ensures |pieces| >= 1
    ensures forall i :: 0 <= i < |pieces| ==> sep !in pieces[i]
  {
    if |s| == 0 then [[]]
    else if s[0] == sep then [[]] + SplitOn(sep, s[1..])
    else
      var rest := SplitOn(sep, s[1..]);
      [[s[0]] + rest[0]] + rest[1..]
  }

  /** A sequence free of the separator is a single piece. */
  lemma {:induction false} SplitOnWithoutSep<T>(sep: T, s: seq<T>)
    requires sep !in s
    ensures SplitOn(sep, s) == [s]
    decreases |s|
  {
    if |s| > 0 {
      SplitOnWithoutSep(sep, s[1..]);
      assert [s[0]] + s[1..] == s;
    }
  }

  /** Splitting distributes over a concatenation around one separator. */
  lemma {:induction false} SplitOnAround<T>(sep: T, a: seq<T>, b: seq<T>)
    ensures SplitOn(sep, a + [sep] + b) == SplitOn(sep, a) + SplitOn(sep, b)
    decreases |a|
  {
    if |a| == 0 {
      assert a + [sep] + b == [sep] + b;
      assert ([sep] + b)[1..] == b;
    } else {
      var s := a + [sep] + b;
      assert s == [a[0]] + (a[1..] + [sep] + b);
      SplitOnAround(sep, a[1..], b);
      SplitOnCons(sep, a[0], a[1..], SplitOn(sep, b));
      SplitOnCons(sep, a[0], a[1..] + [sep] + b, []);
      assert a == [a[0]] + a[1..];
    }
  }

  /** One step of `SplitOn`, stated for a prefix `[x] + t` of a split whose
      remaining pieces are `more`. */
  lemma SplitOnCons<T>(sep: T, x: T, t: seq<T>, more: seq<seq<T>>)
    ensures var rest := SplitOn(sep, t);
      SplitOn(sep, [x] + t) + more ==
        if x == sep then [[]] + (rest + more)
        else [[x] + (rest + more)[0]] + (rest + more)[1..]
  {
    var s := [x] + t;
    assert s[0] == x && s[1..] == t;
    var rest := SplitOn(sep, t);
    if x != sep {
      assert (rest + more)[0] == rest[0];
      assert (rest + more)[1..] == rest[1..] + more;
    }
  }

  /** A leading separator contributes one empty piece. */
  lemma SplitOnLeadingSep<T>(sep: T, t: seq<T>)
    ensures SplitOn(sep, [sep] + t) == [[]] + SplitOn(sep, t)
  {
    assert ([sep] + t)[1..] == t;
  }

  /** A separator-free prefix ending at a separator is one whole piece. */
  lemma SplitOnAfterPiece<T>(sep: T, a: seq<T>, b: seq<T>)
    requires sep !in a
    ensures SplitOn(sep, a + [sep] + b) == [a] + SplitOn(sep, b)
  {
    SplitOnAround(sep, a, b);
    SplitOnWithoutSep(sep, a);
  }

  /** Splitting undoes joining, provided no part holds the separator. */
  lemma {:induction false} SplitOnJoin<T>(sep: T, parts: seq<seq<T>>)
    requires |parts| >= 1
    requires forall i :: 0 <= i < |parts| ==> sep !in parts[i]
    ensures SplitOn(sep, Join([sep], parts)) == parts
    decreases |parts|
  {
    SplitOnWithoutSep(sep, parts[0]);
    if |parts| > 1 {
      SplitOnAround(sep, parts[0], Join([sep], parts[1..]));
      SplitOnJoin(sep, parts[1..]);
      assert [parts[0]] + parts[1..] == parts;
    }
  }

  /** Joining the joins of non-empty groups with the same separator is joining
      their concatenation. */
  lemma {:induction false} JoinOfJoins<T>(sep: seq<T>, groups: seq<seq<seq<T>>>)
    requires forall k :: 0 <= k < |groups| ==> |groups[k]| >= 1
    ensures Join(sep, seq(|groups|, k requires 0 <= k < |groups| => Join(sep, groups[k])))
         == Join(sep, Flatten(groups))
    decreases |groups|
  {
    var joined := seq(|groups|, k requires 0 <= k < |groups| => Join(sep, groups[k]));
    if |groups| == 1 {
      assert Flatten(groups) == groups[0] + Flatten(groups[1..]);
      assert groups[0] + [] == groups[0];
    } else if |groups| > 1 {
      var tail := groups[1..];
      JoinOfJoins(sep, tail);
      assert joined[1..] == seq(|tail|, k requires 0 <= k < |tail| => Join(sep, tail[k]));
      assert Flatten(groups) == groups[0] + Flatten(tail);
      JoinAppend(sep, groups[0], Flatten(tail));
    }
  }

  /** Joining a concatenation of two non-empty lists puts one separator between
      the two joins. */
  lemma {:induction false} JoinAppend<T>(sep: seq<T>, a: seq<seq<T>>, b: seq<seq<T>>)
    requires |a| >= 1
    ensures |b| >= 1 ==> Join(sep, a + b) == Join(sep, a) + sep + Join(sep, b)
    ensures |b| == 0 ==> Join(sep, a + b) == Join(sep, a)
    decreases |a|
  {
    if |b| == 0 {
      assert a + b == a;
    } else if |a| == 1 {
      assert (a + b)[1..] == b;
    } else {
      assert (a + b)[1..] == a[1..] + b;
      JoinAppend(sep, a[1..], b);
    }
  }

  /** Cutting `a + [c] + b` inside `a` cuts `a`. */
  lemma CutBefore<T>(a: seq<T>, c: T, b: seq<T>, k: nat)
    requires k <= |a|
    ensures (a + [c] + b)[..k] == a[..k]
    ensures (a + [c] + b)[k..] == a[k..] + [c] + b
  {
  }

  /** Prepending one element regroups with concatenation. */
  lemma ConsAssociative<T>(x: T, ys: seq<T>, zs: seq<T>)
    ensures [x] + (ys + zs) == ([x] + ys) + zs
  {
  }
}
