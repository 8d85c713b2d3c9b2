/** Sequence vocabulary: mapping, filtering, joining and splitting. */
module Sequences {
  import opened Wrappers

  /** The pieces `f` yields for each element, in order. */
  function FlatMap<A, B>(s: seq<A>, f: A -> seq<B>): seq<B> {
    if s == [] then [] else FlatMap(s[..|s| - 1], f) + f(s[|s| - 1])
  }

  lemma FlatMapAppend<A, B>(s: seq<A>, x: A, f: A -> seq<B>)
    ensures FlatMap(s + [x], f) == FlatMap(s, f) + f(x)
  {
    assert (s + [x])[..|s|] == s;
  }

  function Filter<A>(s: seq<A>, p: A -> bool): seq<A> {
    if s == [] then []
    else Filter(s[..|s| - 1], p) + (if p(s[|s| - 1]) then [s[|s| - 1]] else [])
  }

  lemma FilterAppend<A>(s: seq<A>, x: A, p: A -> bool)
    ensures Filter(s + [x], p) == Filter(s, p) + (if p(x) then [x] else [])
  {
    assert (s + [x])[..|s|] == s;
  }

  lemma {:induction false} FilterConcat<A>(s: seq<A>, t: seq<A>, p: A -> bool)
    ensures Filter(s + t, p) == Filter(s, p) + Filter(t, p)
  {
    if t == [] {
      assert s + t == s;
      assert Filter(s, p) + Filter(t, p) == Filter(s, p);
    } else {
      var n := |t| - 1;
      assert s + t == (s + t[..n]) + [t[n]] && t == t[..n] + [t[n]];
      FilterConcat(s, t[..n], p);
      FilterAppend(s + t[..n], t[n], p);
      FilterAppend(t[..n], t[n], p);
    }
  }

  lemma {:induction false} FilterIdempotent<A>(s: seq<A>, p: A -> bool)
    ensures Filter(Filter(s, p), p) == Filter(s, p)
    ensures |Filter(s, p)| <= |s|
  {
    if s != [] {
      FilterIdempotent(s[..|s| - 1], p);
      if p(s[|s| - 1]) {
        FilterAppend(Filter(s[..|s| - 1], p), s[|s| - 1], p);
      } else {
        assert Filter(s, p) == Filter(s[..|s| - 1], p);
      }
    }
  }

  lemma {:induction false} FilterNone<A>(s: seq<A>, p: A -> bool)
    requires forall x :: x in s ==> !p(x)
    ensures Filter(s, p) == []
  {
    if s != [] {
      FilterNone(s[..|s| - 1], p);
      assert s[|s| - 1] in s;
    }
  }

  lemma {:induction false} FilterAll<A>(s: seq<A>, p: A -> bool)
    requires forall x :: x in s ==> p(x)
    ensures Filter(s, p) == s
  {
    if s != [] {
      FilterAll(s[..|s| - 1], p);
      assert s[|s| - 1] in s;
    }
  }

  /** Predicates need only agree on the members. */
  lemma {:induction false} FilterAgree<A>(s: seq<A>, p: A -> bool, q: A -> bool)
    requires forall x :: x in s ==> p(x) == q(x)
    ensures Filter(s, p) == Filter(s, q)
  {
    if s != [] {
      FilterAgree(s[..|s| - 1], p, q);
      assert s[|s| - 1] in s;
    }
  }

  /** Filtering twice is filtering by both. */
  lemma {:induction false} FilterAnd<A>(s: seq<A>, p: A -> bool, q: A -> bool)
    ensures Filter(Filter(s, p), q) == Filter(s, (x: A) => p(x) && q(x))
  {
    if s != [] {
      var front, last := s[..|s| - 1], s[|s| - 1];
      FilterAnd(front, p, q);
      if p(last) {
        FilterAppend(Filter(front, p), last, q);
      } else {
        assert Filter(s, p) == Filter(front, p);
      }
    }
  }

  lemma FilterTwiceAgree<A>(s: seq<A>, p: A -> bool, q: A -> bool, p': A -> bool, q': A -> bool)
    requires forall x :: x in s ==> (p(x) && q(x)) == (p'(x) && q'(x))
    ensures Filter(Filter(s, p), q) == Filter(Filter(s, p'), q')
  {
    FilterAnd(s, p, q);
    FilterAnd(s, p', q');
    FilterAgree(s, (x: A) => p(x) && q(x), (x: A) => p'(x) && q'(x));
  }

  lemma {:induction false} FilterMembers<A>(s: seq<A>, p: A -> bool)
    ensures forall x :: x in Filter(s, p) <==> x in s && p(x)
  {
    if s != [] {
      FilterMembers(s[..|s| - 1], p);
      assert s == s[..|s| - 1] + [s[|s| - 1]];
    }
  }

  lemma SliceOfSlice<A>(s: seq<A>, lo: nat, hi: nat, from: nat, to: nat)
    requires lo <= from <= to <= hi <= |s|
    ensures s[lo..hi][from - lo..to - lo] == s[from..to]
  {
    var whole, a, b := s[lo..hi], from - lo, to - lo;
    var x, y := whole[a..b], s[from..to];
    assert |x| == |y|;
    forall i | 0 <= i < |x|
      ensures x[i] == y[i]
    {
      assert x[i] == whole[a + i] == s[lo + (a + i)];
    }
  }

  /** What was read already in front of what the rest reads as; an error stays. */
  ghost function Prepend<T, E>(head: seq<T>, r: Result<seq<T>, E>): Result<seq<T>, E> {
    if r.Ok? then Ok(head + r.value) else r
  }

  lemma PrependTwice<T, E>(a: seq<T>, b: seq<T>, r: Result<seq<T>, E>)
    ensures Prepend(a, Prepend(b, r)) == Prepend(a + b, r)
  {
    if r.Ok? {
      assert a + (b + r.value) == a + b + r.value;
    }
  }

  lemma PrependUnits<T, E>(a: seq<T>, r: Result<seq<T>, E>)
    ensures Prepend([], r) == r
    ensures Prepend<T, E>(a, Ok([])) == Ok(a)
    ensures r.Err? ==> Prepend(a, r) == r
  {
    assert a + [] == a;
    if r.Ok? {
      assert [] + r.value == r.value;
    }
  }

  /** The pieces with `sep` between them. */
  function Join<A>(pieces: seq<seq<A>>, sep: A): seq<A> {
    if pieces == [] then []
    else if |pieces| == 1 then pieces[0]
    else Join(pieces[..|pieces| - 1], sep) + [sep] + pieces[|pieces| - 1]
  }

  /** `split`: never empty, one piece more than there are separators. */
  function Split<A(==)>(s: seq<A>, sep: A): (pieces: seq<seq<A>>)
    ensures pieces != []
  {
    if s == [] then [[]]
    else
      var c := s[|s| - 1];
      var pieces := Split(s[..|s| - 1], sep);
      if c == sep then pieces + [[]] else pieces[..|pieces| - 1] + [pieces[|pieces| - 1] + [c]]
  }

  lemma JoinAppendPiece<A>(pieces: seq<seq<A>>, longer: seq<seq<A>>, last: seq<A>, sep: A)
    requires pieces != [] && longer == pieces + [last]
    ensures Join(longer, sep) == Join(pieces, sep) + [sep] + last
  {
    assert longer[..|pieces|] == pieces;
  }

  lemma JoinExtendPiece<A>(pieces: seq<seq<A>>, grown: seq<seq<A>>, c: A, sep: A)
    requires 0 < |pieces| == |grown| && grown[..|pieces| - 1] == pieces[..|pieces| - 1]
    requires grown[|pieces| - 1] == pieces[|pieces| - 1] + [c]
    ensures Join(grown, sep) == Join(pieces, sep) + [c]
  {
    var m := |pieces| - 1;
    if m > 0 {
      assert Join(grown, sep) == Join(pieces[..m], sep) + [sep] + (pieces[m] + [c]);
    }
  }

  /** The pieces of a split joined again are the whole. */
  lemma {:induction false} JoinSplit<A>(s: seq<A>, sep: A)
    ensures Join(Split(s, sep), sep) == s
  {
    if s == [] {
      assert Join([[]], sep) == s;
    } else {
      hide Join;
      var n := |s| - 1;
      JoinSplit(s[..n], sep);
      if s[n] == sep {
        JoinAppendPiece(Split(s[..n], sep), Split(s, sep), [], sep);
      } else {
        JoinExtendPiece(Split(s[..n], sep), Split(s, sep), s[n], sep);
      }
      assert s == s[..n] + [s[n]];
    }
  }

  /** No piece of a split holds the separator. */
  lemma {:induction false} SplitHasNoSeparator<A>(s: seq<A>, sep: A)
    ensures forall i :: 0 <= i < |Split(s, sep)| ==> sep !in Split(s, sep)[i]
  {
    if s != [] {
      SplitHasNoSeparator(s[..|s| - 1], sep);
    }
  }

  /** The pieces with `tail` added to the last one. */
  ghost function Grow<A>(pieces: seq<seq<A>>, tail: seq<A>): seq<seq<A>>
    requires pieces != []
  {
    pieces[..|pieces| - 1] + [pieces[|pieces| - 1] + tail]
  }

  lemma GrowByNothing<A>(pieces: seq<seq<A>>)
    requires pieces != []
    ensures Grow(pieces, []) == pieces
  {
    assert pieces[|pieces| - 1] + [] == pieces[|pieces| - 1];
  }

  lemma GrowTwice<A>(pieces: seq<seq<A>>, a: seq<A>, b: seq<A>)
    requires pieces != []
    ensures Grow(pieces, a) != [] && Grow(Grow(pieces, a), b) == Grow(pieces, a + b)
  {
    var m := |pieces| - 1;
    assert pieces[m] + a + b == pieces[m] + (a + b);
  }

  lemma SplitOneMore<A>(s: seq<A>, c: A, sep: A)
    ensures Split(s + [c], sep) == if c == sep then Split(s, sep) + [[]] else Grow(Split(s, sep), [c])
  {
    assert (s + [c])[..|s|] == s;
  }

  lemma {:induction false} SplitExtends<A>(s: seq<A>, tail: seq<A>, sep: A)
    requires sep !in tail
    ensures Split(s + tail, sep) == Grow(Split(s, sep), tail)
  {
    hide Split, Grow;
    if tail == [] {
      assert s + tail == s;
      GrowByNothing(Split(s, sep));
    } else {
      var n := |tail| - 1;
      assert s + tail == (s + tail[..n]) + [tail[n]] && tail == tail[..n] + [tail[n]];
      SplitExtends(s, tail[..n], sep);
      SplitOneMore(s + tail[..n], tail[n], sep);
      GrowTwice(Split(s, sep), tail[..n], [tail[n]]);
    }
  }

  lemma SplitSingle<A>(piece: seq<A>, sep: A)
    requires sep !in piece
    ensures Split(piece, sep) == [piece] && Join([piece], sep) == piece
  {
    var nothing: seq<A> := [];
    SplitExtends(nothing, piece, sep);
    assert nothing + piece == piece;
    assert Split(nothing, sep) == [nothing];
  }

  /** Splitting what was joined gives the pieces back, if none of them holds the separator. */
  lemma {:induction false} SplitJoin<A>(pieces: seq<seq<A>>, sep: A)
    requires pieces != [] && forall i :: 0 <= i < |pieces| ==> sep !in pieces[i]
    ensures Split(Join(pieces, sep), sep) == pieces
  {
    hide Split, Join;
    var n := |pieces| - 1;
    if n == 0 {
      SplitSingle(pieces[0], sep);
      assert pieces == [pieces[0]];
    } else {
      assert pieces == pieces[..n] + [pieces[n]];
      var front := Join(pieces[..n], sep);
      SplitJoin(pieces[..n], sep);
      SplitOneMore(front, sep, sep);
      SplitExtends(front + [sep], pieces[n], sep);
      JoinAppendPiece(pieces[..n], pieces, pieces[n], sep);
      assert (pieces[..n] + [[]])[..n] == pieces[..n] && [] + pieces[n] == pieces[n];
    }
  }
}
