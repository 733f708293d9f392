/** Sequence and string helpers shared by the style engine and the help-text
    builder: JavaScript's Array.prototype.join and String.prototype.split with a
    one-character separator, String.prototype.repeat for spaces, and the lodash
    helpers uniq (first-seen order) and max. */
module Strings {

  datatype Option<T> = None | Some(value: T)

  /** Array.prototype.join: the parts separated by `sep`; the empty array joins to "". */
  function Join(parts: seq<string>, sep: string): string
  {
    if |parts| == 0 then ""
    else if |parts| == 1 then parts[0]
    else parts[0] + sep + Join(parts[1..], sep)
  }

  /** String.prototype.split on a single separator character: always at least one
      piece, and no piece contains the separator. */
  function Split(s: string, c: char): (r: seq<string>)
    ensures |r| >= 1
    ensures forall i :: 0 <= i < |r| ==> c !in r[i]
  {
    if |s| == 0 then [""]
    else if s[0] == c then [""] + Split(s[1..], c)
    else
      var rest := Split(s[1..], c);
      [[s[0]] + rest[0]] + rest[1..]
  }

  /** `' '.repeat(n)` */
  function Spaces(n: nat): (r: string)
    ensures |r| == n && forall i :: 0 <= i < n ==> r[i] == ' '
  {
    seq(n, _ => ' ')
  }

  /** The elements of `xs` mapped through `f`, in order. */
  function MapSeq<A, B>(f: A -> B, xs: seq<A>): (r: seq<B>)
    ensures |r| == |xs| && forall i :: 0 <= i < |xs| ==> r[i] == f(xs[i])
  {
    seq(|xs|, i requires 0 <= i < |xs| => f(xs[i]))
  }

  predicate NoDup<T(==)>(xs: seq<T>)
  {
    forall i, j :: 0 <= i < j < |xs| ==> xs[i] != xs[j]
  }

  /** Array.prototype.indexOf of an element that is present. */
  function IndexOf<T(==)>(xs: seq<T>, x: T): (k: nat)
    requires x in xs
    ensures k < |xs| && xs[k] == x && x !in xs[..k]
  {
    if xs[0] == x then 0 else 1 + IndexOf(xs[1..], x)
  }

  /** lodash `uniq`: each distinct element once, kept where it was first seen. */
  function Uniq<T(==)>(xs: seq<T>): (r: seq<T>)
    ensures NoDup(r)
    ensures forall i :: 0 <= i < |r| ==> r[i] in xs
    ensures forall i :: 0 <= i < |xs| ==> xs[i] in r
  {
    if |xs| == 0 then []
    else
      var r := Uniq(xs[..|xs| - 1]);
      var x := xs[|xs| - 1];
      if x in r then r else r + [x]
  }

  /** lodash `max`: the largest element, or nothing (`undefined`) for an empty array. */
  function Max(xs: seq<nat>): (r: Option<nat>)
    ensures r.Some? <==> |xs| > 0
    ensures r.Some? ==> r.value in xs && forall i :: 0 <= i < |xs| ==> xs[i] <= r.value
  {
    if |xs| == 0 then None
    else
      match Max(xs[1..])
      case None => Some(xs[0])
      case Some(m) => Some(if xs[0] < m then m else xs[0])
  }

  // ---- join and split ----

  /** Joining the pieces of a split with the separator gives back the string. */
  lemma {:induction false} JoinSplit(s: string, c: char)
    ensures Join(Split(s, c), [c]) == s
  {
    if |s| == 0 {
    } else if s[0] == c {
      JoinSplit(s[1..], c);
      var rest := Split(s[1..], c);
      assert Split(s, c) == [""] + rest;
      assert Join([""] + rest, [c]) == "" + [c] + Join(rest, [c]);
      assert s == [c] + s[1..];
    } else {
      JoinSplit(s[1..], c);
      var rest := Split(s[1..], c);
      var head := [s[0]] + rest[0];
      assert Split(s, c) == [head] + rest[1..];
      if |rest| == 1 {
        assert Join(rest, [c]) == rest[0];
      } else {
        assert Join(rest, [c]) == rest[0] + [c] + Join(rest[1..], [c]);
        assert ([head] + rest[1..])[1..] == rest[1..];
      }
      assert s == [s[0]] + s[1..];
    }
  }

  /** Splitting a joined list of separator-free pieces gives back the pieces. */
  lemma {:induction false} SplitJoin(parts: seq<string>, c: char)
    requires |parts| >= 1
    requires forall i :: 0 <= i < |parts| ==> c !in parts[i]
    ensures Split(Join(parts, [c]), c) == parts
  {
    if |parts| == 1 {
      SplitFree(parts[0], c, "");
      assert parts[0] + "" == parts[0];
    } else {
      SplitJoin(parts[1..], c);
      var rest := Join(parts[1..], [c]);
      assert Join(parts, [c]) == parts[0] + ([c] + rest);
      SplitFree(parts[0], c, [c] + rest);
      assert ([c] + rest)[1..] == rest;
      assert [parts[0]] + parts[1..] == parts;
    }
  }

  /** A separator-free prefix becomes the head of the first piece. */
  lemma {:induction false} SplitFree(a: string, c: char, b: string)
    requires c !in a
    requires b == "" || b[0] == c
    ensures b == "" ==> Split(a + b, c) == [a]
    ensures b != "" ==> Split(a + b, c) == [a] + Split(b[1..], c)
  {
    if |a| > 0 {
      SplitFree(a[1..], c, b);
      assert (a + b)[1..] == a[1..] + b;
      assert [a[0]] + a[1..] == a;
    } else {
      assert a + b == b;
    }
  }

  /** Joining with the empty separator distributes over concatenation. */
  lemma {:induction false} ConcatAppend(xs: seq<string>, ys: seq<string>)
    ensures Join(xs + ys, "") == Join(xs, "") + Join(ys, "")
  {
    if |xs| == 0 {
      assert xs + ys == ys;
    } else if |xs| == 1 {
      if |ys| > 0 {
        assert (xs + ys)[1..] == ys;
      }
    } else {
      ConcatAppend(xs[1..], ys);
      assert (xs + ys)[1..] == xs[1..] + ys;
    }
  }

  // ---- uniq ----

  /** Uniq keeps first-seen order: an earlier element of the result was seen first. */
  lemma {:induction false} UniqFirstSeen<T>(xs: seq<T>, i: nat, j: nat)
    requires i < j < |Uniq(xs)|
    ensures IndexOf(xs, Uniq(xs)[i]) < IndexOf(xs, Uniq(xs)[j])
  {
    var init := xs[..|xs| - 1];
    var x := xs[|xs| - 1];
    var r := Uniq(init);
    assert xs == init + [x];
    IndexOfAppend(init, x, Uniq(xs)[i]);
    IndexOfAppend(init, x, Uniq(xs)[j]);
    if x in r {
      UniqFirstSeen(init, i, j);
    } else if j < |r| {
      UniqFirstSeen(init, i, j);
    } else {
      assert Uniq(xs)[j] == x && x !in init;
    }
  }

  lemma IndexOfAppend<T>(xs: seq<T>, y: T, x: T)
    requires x in xs + [y]
    ensures x in xs ==> IndexOf(xs + [y], x) == IndexOf(xs, x)
    ensures x !in xs ==> IndexOf(xs + [y], x) == |xs|
  {
    if |xs| > 0 && xs[0] != x {
      assert (xs + [y])[1..] == xs[1..] + [y];
      IndexOfAppend(xs[1..], y, x);
    }
  }

  /** A list without duplicates is its own uniq. */
  lemma {:induction false} UniqNoDup<T>(xs: seq<T>)
    requires NoDup(xs)
    ensures Uniq(xs) == xs
  {
    if |xs| > 0 {
      var init := xs[..|xs| - 1];
      assert NoDup(init);
      UniqNoDup(init);
      assert xs[|xs| - 1] !in init;
      assert init + [xs[|xs| - 1]] == xs;
    }
  }

  /** De-duplicating a prefix first changes nothing: uniq(uniq(xs) + ys) == uniq(xs + ys). */
  lemma {:induction false} UniqAbsorbs<T>(xs: seq<T>, ys: seq<T>)
    ensures Uniq(Uniq(xs) + ys) == Uniq(xs + ys)
  {
    if |ys| == 0 {
      assert Uniq(xs) + ys == Uniq(xs);
      assert xs + ys == xs;
      UniqNoDup(Uniq(xs));
    } else {
      var init, y := ys[..|ys| - 1], ys[|ys| - 1];
      var u := Uniq(xs);
      assert ys == init + [y];
      assert u + ys == (u + init) + [y];
      assert xs + ys == (xs + init) + [y];
      UniqAbsorbs(xs, init);
      UniqSnoc(u + init, y);
      UniqSnoc(xs + init, y);
    }
  }

  /** Uniq grows by the last element exactly when that element is new. */
  lemma UniqSnoc<T>(xs: seq<T>, y: T)
    ensures Uniq(xs + [y]) == if y in Uniq(xs) then Uniq(xs) else Uniq(xs) + [y]
  {
    assert (xs + [y])[..|xs|] == xs;
  }

  /** De-duplicating before mapping does not change the de-duplicated image. */
  lemma {:induction false} UniqMapUniq<A, B>(f: A -> B, xs: seq<A>)
    ensures Uniq(MapSeq(f, Uniq(xs))) == Uniq(MapSeq(f, xs))
  {
    if |xs| > 0 {
      var init, x := xs[..|xs| - 1], xs[|xs| - 1];
      UniqMapUniq(f, init);
      if x in Uniq(init) {
        UniqMapSeen(f, init, x);
      } else {
        UniqMapNew(f, init, x);
      }
      LastSplit(xs);
    }
  }

  /** A non-empty sequence is its prefix followed by its last element. */
  lemma LastSplit<T>(xs: seq<T>)
    requires |xs| > 0
    ensures xs[..|xs| - 1] + [xs[|xs| - 1]] == xs
  {
  }

  /** The step of UniqMapUniq for an element already seen. */
  lemma UniqMapSeen<A, B>(f: A -> B, init: seq<A>, x: A)
    requires x in Uniq(init)
    requires Uniq(MapSeq(f, Uniq(init))) == Uniq(MapSeq(f, init))
    ensures Uniq(MapSeq(f, Uniq(init + [x]))) == Uniq(MapSeq(f, init + [x]))
  {
    UniqSnoc(init, x);
    MapSeqSnoc(f, init, x);
    UniqSnoc(MapSeq(f, init), f(x));
    UniqMember(MapSeq(f, init), f(x));
    var k := IndexOf(init, x);
    assert MapSeq(f, init)[k] == f(x);
  }

  /** The step of UniqMapUniq for a new element. */
  lemma UniqMapNew<A, B>(f: A -> B, init: seq<A>, x: A)
    requires x !in Uniq(init)
    requires Uniq(MapSeq(f, Uniq(init))) == Uniq(MapSeq(f, init))
    ensures Uniq(MapSeq(f, Uniq(init + [x]))) == Uniq(MapSeq(f, init + [x]))
  {
    var u := Uniq(init);
    UniqSnoc(init, x);
    MapSeqSnoc(f, init, x);
    UniqSnoc(MapSeq(f, init), f(x));
    UniqMember(MapSeq(f, init), f(x));
    MapSeqSnoc(f, u, x);
    UniqSnoc(MapSeq(f, u), f(x));
    UniqMember(MapSeq(f, u), f(x));
    MapSeqImage(f, u, init, x);
  }

  lemma MapSeqSnoc<A, B>(f: A -> B, xs: seq<A>, x: A)
    ensures MapSeq(f, xs + [x]) == MapSeq(f, xs) + [f(x)]
  {
  }

  /** An element is in the uniq of a list iff it is in the list. */
  lemma UniqMember<T>(xs: seq<T>, y: T)
    ensures y in Uniq(xs) <==> y in xs
  {
    if y in Uniq(xs) {
      var k :| 0 <= k < |Uniq(xs)| && Uniq(xs)[k] == y;
    }
    if y in xs {
      var k :| 0 <= k < |xs| && xs[k] == y;
    }
  }

  /** f(x) occurs in the image of `xs` iff it occurs in the image of uniq(xs). */
  lemma MapSeqImage<A, B>(f: A -> B, u: seq<A>, xs: seq<A>, x: A)
    requires forall i :: 0 <= i < |u| ==> u[i] in xs
    requires forall i :: 0 <= i < |xs| ==> xs[i] in u
    ensures f(x) in MapSeq(f, u) <==> f(x) in MapSeq(f, xs)
  {
    if f(x) in MapSeq(f, u) {
      var k :| 0 <= k < |u| && MapSeq(f, u)[k] == f(x);
      var k' := IndexOf(xs, u[k]);
      assert MapSeq(f, xs)[k'] == f(x);
    }
    if f(x) in MapSeq(f, xs) {
      var k :| 0 <= k < |xs| && MapSeq(f, xs)[k] == f(x);
      var k' := IndexOf(u, xs[k]);
      assert MapSeq(f, u)[k'] == f(x);
    }
  }
}
