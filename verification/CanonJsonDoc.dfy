/** Source documents: member order and key order under UTF-16, and what they do to the canonical form. */
module CanonJsonDoc {
  import opened Text
  import opened CanonJson
  import opened CanonJsonDecode

  // ---------------------------------------------------------------- documents

  // A JSON text before decoding: an object is a list of members, possibly with repeated keys.
  datatype Doc = Scalar(v: Json) | List(items: seq<Doc>) | Object(members: seq<Member>)

  datatype Member = Member(key: string, value: Doc)

  /** What the decoder makes of a document: later members win. */
  function ValueOf(d: Doc): Json
    decreases d
  {
    match d
    case Scalar(v) => v
    case List(items) => Arr(seq(|items|, i requires 0 <= i < |items| => ValueOf(items[i])))
    case Object(members) =>
      Obj(ToMap(seq(|members|, i requires 0 <= i < |members| => Pair(members[i].key, ValueOf(members[i].value)))))
  }

  ghost function Canonicalize(d: Doc): string {
    Canon(ValueOf(d))
  }

  /** Members that share a key decode to the same value. */
  predicate NoConflict(ms: seq<Member>) {
    forall i, j :: 0 <= i < j < |ms| && ms[i].key == ms[j].key ==> ValueOf(ms[i].value) == ValueOf(ms[j].value)
  }

  /** No two members of any object conflict, at any depth. */
  ghost predicate Unambiguous(d: Doc)
    decreases d
  {
    match d
    case Scalar(_) => true
    case List(items) => forall i :: 0 <= i < |items| ==> Unambiguous(items[i])
    case Object(members) =>
      && (forall i :: 0 <= i < |members| ==> Unambiguous(members[i].value))
      && NoConflict(members)
  }

  /** p lists every index below n once. */
  ghost predicate IsPermutation(p: seq<nat>, n: nat) {
    |p| == n && (forall j :: 0 <= j < n ==> p[j] < n) && forall i :: 0 <= i < n ==> i in p
  }

  /** b is a with the members of objects permuted, at any depth. */
  ghost predicate Reordered(a: Doc, b: Doc)
    decreases a
  {
    match a
    case Scalar(_) => a == b
    case List(xs) => b.List? && |xs| == |b.items| && forall i :: 0 <= i < |xs| ==> Reordered(xs[i], b.items[i])
    case Object(ms) => b.Object? && exists p :: IsPermutation(p, |ms|) && Rearranged(ms, b.members, p)
  }

  /** Member j of ns is member p[j] of ms, its value reordered. */
  ghost predicate Rearranged(ms: seq<Member>, ns: seq<Member>, p: seq<nat>)
    decreases ms
  {
    && |ns| == |ms| == |p|
    && forall j :: 0 <= j < |ns| ==>
         p[j] < |ms| && ns[j].key == ms[p[j]].key && Reordered(ms[p[j]].value, ns[j].value)
  }

  /** Pairs that share a key share the value. */
  predicate Consistent(ps: seq<Pair>) {
    forall i, j :: 0 <= i < j < |ps| && ps[i].key == ps[j].key ==> ps[i].value == ps[j].value
  }

  /** Without conflicts the map holds exactly the listed pairs. */
  lemma {:induction false} ToMapConsistent(ps: seq<Pair>)
    requires Consistent(ps)
    ensures forall p :: p in ps ==> p.key in ToMap(ps) && ToMap(ps)[p.key] == p.value
    ensures forall k :: k in ToMap(ps) ==> Pair(k, ToMap(ps)[k]) in ps
  {
    if ps != [] {
      var front, last := ps[..|ps| - 1], ps[|ps| - 1];
      ToMapConsistent(front);
      assert ps == front + [last];
      assert forall p :: p in front && p.key == last.key ==> p.value == last.value;
    }
  }

  function PairsOf(ms: seq<Member>): (r: seq<Pair>)
    ensures |r| == |ms|
  {
    seq(|ms|, i requires 0 <= i < |ms| => Pair(ms[i].key, ValueOf(ms[i].value)))
  }

  /** Reordering an unambiguous document keeps its value, and leaves it unambiguous. */
  lemma {:induction false} ReorderedValue(a: Doc, b: Doc)
    requires Unambiguous(a) && Reordered(a, b)
    ensures Unambiguous(b) && ValueOf(a) == ValueOf(b)
    decreases a, 2
  {
    hide ToMap, Rearranged;
    match a
    case Scalar(_) =>
    case List(xs) => ReorderedItems(xs, b.items);
    case Object(ms) =>
      var p :| IsPermutation(p, |ms|) && Rearranged(ms, b.members, p);
      ReorderedMembers(ms, b.members, p);
  }

  lemma ReorderedItems(xs: seq<Doc>, ys: seq<Doc>)
    requires Unambiguous(List(xs)) && Reordered(List(xs), List(ys))
    ensures Unambiguous(List(ys)) && ValueOf(List(xs)) == ValueOf(List(ys))
    decreases List(xs), 1
  {
    forall i | 0 <= i < |xs| ensures Unambiguous(ys[i]) && ValueOf(xs[i]) == ValueOf(ys[i]) {
      ReorderedValue(xs[i], ys[i]);
    }
  }

  lemma ReorderedMembers(ms: seq<Member>, ns: seq<Member>, p: seq<nat>)
    requires Unambiguous(Object(ms)) && IsPermutation(p, |ms|) && Rearranged(ms, ns, p)
    ensures Unambiguous(Object(ns)) && ValueOf(Object(ms)) == ValueOf(Object(ns))
    decreases Object(ms), 1
  {
    hide ToMap, Reordered;
    assert ValueOf(Object(ms)) == Obj(ToMap(PairsOf(ms)));
    assert ValueOf(Object(ns)) == Obj(ToMap(PairsOf(ns)));
    forall j | 0 <= j < |ns| ensures Unambiguous(ns[j].value) && PairsOf(ns)[j] == PairsOf(ms)[p[j]] {
      ReorderedMember(ms, ns, p, j);
    }
    hide ValueOf;
    SamePairsRearranged(PairsOf(ms), PairsOf(ns), p);
  }

  lemma InsideUnambiguous(ms: seq<Member>, i: nat)
    requires Unambiguous(Object(ms)) && i < |ms|
    ensures Unambiguous(ms[i].value)
  {
  }

  lemma ReorderedMember(ms: seq<Member>, ns: seq<Member>, p: seq<nat>, j: nat)
    requires Unambiguous(Object(ms)) && Rearranged(ms, ns, p) && j < |ns|
    ensures Unambiguous(ns[j].value) && PairsOf(ns)[j] == PairsOf(ms)[p[j]]
    decreases Object(ms), 0
  {
    hide ValueOf, Reordered, Unambiguous;
    InsideUnambiguous(ms, p[j]);
    ReorderedValue(ms[p[j]].value, ns[j].value);
  }

  predicate PairsMoved(ps: seq<Pair>, qs: seq<Pair>, p: seq<nat>) {
    |qs| == |ps| <= |p| && forall j :: 0 <= j < |qs| ==> p[j] < |ps| && qs[j] == ps[p[j]]
  }

  lemma SamePairsRearranged(ps: seq<Pair>, qs: seq<Pair>, p: seq<nat>)
    requires Consistent(ps) && IsPermutation(p, |ps|) && PairsMoved(ps, qs, p)
    ensures Consistent(qs) && ToMap(ps) == ToMap(qs)
  {
    hide ToMap, Consistent, IsPermutation, PairsMoved;
    MovedConsistent(ps, qs, p);
    forall x ensures x in ps <==> x in qs {
      MovedPair(ps, qs, p, x);
    }
    SameMembersSameMap(ps, qs);
  }

  lemma MovedPair(ps: seq<Pair>, qs: seq<Pair>, p: seq<nat>, x: Pair)
    requires IsPermutation(p, |ps|) && PairsMoved(ps, qs, p)
    ensures x in ps <==> x in qs
  {
    if x in ps {
      var i :| 0 <= i < |ps| && ps[i] == x;
      assert i in p;
      var j :| 0 <= j < |p| && p[j] == i;
      assert qs[j] == x;
    }
  }

  lemma MovedConsistent(ps: seq<Pair>, qs: seq<Pair>, p: seq<nat>)
    requires Consistent(ps) && PairsMoved(ps, qs, p)
    ensures Consistent(qs)
  {
    forall i, j | 0 <= i < j < |qs| && qs[i].key == qs[j].key ensures qs[i].value == qs[j].value {
      assert ps[p[i]].key == ps[p[j]].key;
    }
  }

  lemma SameMembersSameMap(ps: seq<Pair>, qs: seq<Pair>)
    requires Consistent(ps) && Consistent(qs)
    requires forall p :: p in ps <==> p in qs
    ensures ToMap(ps) == ToMap(qs)
  {
    ToMapConsistent(ps);
    ToMapConsistent(qs);
    hide ToMap;
    var f, g := ToMap(ps), ToMap(qs);
    forall k | k in f ensures k in g && g[k] == f[k] {
      assert Pair(k, f[k]) in qs;
    }
    forall k | k in g ensures k in f {
      assert Pair(k, g[k]) in ps;
    }
  }

  /** Permuting members at any depth never changes the bytes, when no two members of an object conflict. */
  lemma CanonIgnoresMemberOrder(a: Doc, b: Doc)
    requires Unambiguous(a) && Reordered(a, b)
    ensures Canonicalize(a) == Canonicalize(b)
  {
    ReorderedValue(a, b);
  }

  /** Every order of the members gives the same bytes. */
  ghost predicate OrderImmaterial(ms: seq<Member>) {
    forall ns :: multiset(ns) == multiset(ms) ==> Canonicalize(Object(ns)) == Canonicalize(Object(ms))
  }

  /** The order of an object's members is immaterial exactly when no two of them conflict. */
  lemma MemberOrderMatters(ms: seq<Member>)
    requires forall m :: m in ms ==> NumbersOk(ValueOf(m.value))
    ensures OrderImmaterial(ms) <==> NoConflict(ms)
  {
    hide ValueOf, Canon, NumbersOk, Canonicalize;
    if NoConflict(ms) {
      forall ns | multiset(ns) == multiset(ms) ensures Canonicalize(Object(ns)) == Canonicalize(Object(ms)) {
        PermutedMembers(ms, ns);
      }
    } else {
      var i, j :| 0 <= i < j < |ms| && ms[i].key == ms[j].key && ValueOf(ms[i].value) != ValueOf(ms[j].value);
      LastMemberWins(ms, i);
      LastMemberWins(ms, j);
      MovedMembers(ms, i);
      MovedMembers(ms, j);
      ConflictShows(ms, i, j);
    }
  }

  lemma PermutedMembers(ms: seq<Member>, ns: seq<Member>)
    requires NoConflict(ms) && multiset(ns) == multiset(ms)
    ensures Canonicalize(Object(ns)) == Canonicalize(Object(ms))
  {
    hide ToMap, Canon;
    assert ValueOf(Object(ms)) == Obj(ToMap(PairsOf(ms))) && ValueOf(Object(ns)) == Obj(ToMap(PairsOf(ns)));
    hide ValueOf;
    forall m ensures m in ms <==> m in ns {
      assert m in multiset(ms) <==> m in multiset(ns);
    }
    SamePairs(ms, ns);
    SamePairs(ns, ms);
    forall i, j | 0 <= i < j < |ns| && ns[i].key == ns[j].key ensures ValueOf(ns[i].value) == ValueOf(ns[j].value) {
      assert ns[i] in ms && ns[j] in ms;
    }
    SameMembersSameMap(PairsOf(ms), PairsOf(ns));
  }

  lemma SamePairs(ms: seq<Member>, ns: seq<Member>)
    requires forall m :: m in ms ==> m in ns
    ensures forall p :: p in PairsOf(ms) ==> p in PairsOf(ns)
  {
    hide ValueOf;
    forall i | 0 <= i < |ms| ensures PairsOf(ms)[i] in PairsOf(ns) {
      assert ms[i] in ns;
      var j :| 0 <= j < |ns| && ns[j] == ms[i];
      assert PairsOf(ns)[j] == PairsOf(ms)[i];
    }
  }

  /** Member i moved behind all the others. */
  function ToEnd(ms: seq<Member>, i: nat): seq<Member>
    requires i < |ms|
  {
    ms[..i] + ms[i + 1..] + [ms[i]]
  }

  lemma LastMemberWins(ms: seq<Member>, i: nat)
    requires i < |ms|
    ensures ms[i].key in ToMap(PairsOf(ToEnd(ms, i)))
    ensures ToMap(PairsOf(ToEnd(ms, i)))[ms[i].key] == ValueOf(ms[i].value)
  {
    hide ValueOf;
    var ns := ToEnd(ms, i);
    assert PairsOf(ns) == PairsOf(ns[..|ns| - 1]) + [Pair(ms[i].key, ValueOf(ms[i].value))];
  }

  lemma MovedMembers(ms: seq<Member>, i: nat)
    requires i < |ms| && forall m :: m in ms ==> NumbersOk(ValueOf(m.value))
    ensures multiset(ToEnd(ms, i)) == multiset(ms)
    ensures NumbersOk(Obj(ToMap(PairsOf(ToEnd(ms, i)))))
  {
    hide ValueOf, NumbersOk;
    var ns := ToEnd(ms, i);
    assert ms == ms[..i] + [ms[i]] + ms[i + 1..];
    assert multiset(ns) == multiset(ms);
    forall m | m in ns ensures NumbersOk(ValueOf(m.value)) {
      assert m in multiset(ms);
    }
    NumbersOfPairs(ns);
  }

  lemma NumbersOfPairs(ms: seq<Member>)
    requires forall m :: m in ms ==> NumbersOk(ValueOf(m.value))
    ensures NumbersOk(Obj(ToMap(PairsOf(ms))))
  {
    hide ValueOf;
    forall p | p in PairsOf(ms) ensures NumbersOk(p.value) {
      var i :| 0 <= i < |ms| && PairsOf(ms)[i] == p;
      assert ms[i] in ms;
    }
    ToMapValues(PairsOf(ms));
  }

  lemma {:induction false} ToMapValues(ps: seq<Pair>)
    ensures forall k :: k in ToMap(ps) ==> Pair(k, ToMap(ps)[k]) in ps
  {
    if ps != [] {
      var front, last := ps[..|ps| - 1], ps[|ps| - 1];
      ToMapValues(front);
      assert ps == front + [last];
    }
  }

  lemma ConflictShows(ms: seq<Member>, i: nat, j: nat)
    requires i < |ms| && j < |ms| && ms[i].key == ms[j].key && ValueOf(ms[i].value) != ValueOf(ms[j].value)
    requires multiset(ToEnd(ms, i)) == multiset(ms) == multiset(ToEnd(ms, j))
    requires var m := ToMap(PairsOf(ToEnd(ms, i)));
             ms[i].key in m && m[ms[i].key] == ValueOf(ms[i].value) && NumbersOk(Obj(m))
    requires var m := ToMap(PairsOf(ToEnd(ms, j)));
             ms[j].key in m && m[ms[j].key] == ValueOf(ms[j].value) && NumbersOk(Obj(m))
    ensures !OrderImmaterial(ms)
  {
    hide ToMap, ToEnd, NumbersOk, Canon;
    var a, b := ToEnd(ms, i), ToEnd(ms, j);
    assert ValueOf(Object(a)) == Obj(ToMap(PairsOf(a))) && ValueOf(Object(b)) == Obj(ToMap(PairsOf(b)));
    hide ValueOf, PairsOf;
    CanonInjective(Obj(ToMap(PairsOf(a))), Obj(ToMap(PairsOf(b))));
    assert Canonicalize(Object(a)) != Canonicalize(Object(b));
  }

  /** The shortest conflict: one key, true and false. */
  lemma RepeatedKeysDependOnOrder()
    ensures var one, two := Member("k", Scalar(Bool(true))), Member("k", Scalar(Bool(false)));
            !OrderImmaterial([one, two])
  {
    var one, two := Member("k", Scalar(Bool(true))), Member("k", Scalar(Bool(false)));
    var ms := [one, two];
    hide Canonicalize, OrderImmaterial;
    assert ms[0].key == ms[1].key && ValueOf(ms[0].value) != ValueOf(ms[1].value);
    MemberOrderMatters(ms);
  }

  // ---------------------------------------------------------------- order at any depth

  /** Every number of the document, overwritten members included, is a number literal. */
  ghost predicate AllNumbersOk(d: Doc)
    decreases d
  {
    match d
    case Scalar(v) => NumbersOk(v)
    case List(items) => forall i :: 0 <= i < |items| ==> AllNumbersOk(items[i])
    case Object(members) => forall i :: 0 <= i < |members| ==> AllNumbersOk(members[i].value)
  }

  lemma {:induction false} NumbersOfValue(d: Doc)
    requires AllNumbersOk(d)
    ensures NumbersOk(ValueOf(d))
    decreases d
  {
    match d
    case Scalar(_) =>
    case List(items) =>
      forall i | 0 <= i < |items| ensures NumbersOk(ValueOf(items[i])) { NumbersOfValue(items[i]); }
    case Object(members) =>
      forall i | 0 <= i < |members| ensures NumbersOk(ValueOf(members[i].value)) {
        NumbersOfValue(members[i].value);
      }
      NumbersOfMembers(members);
  }

  lemma NumbersOfMembers(ms: seq<Member>)
    requires forall i :: 0 <= i < |ms| ==> NumbersOk(ValueOf(ms[i].value))
    ensures NumbersOk(ValueOf(Object(ms)))
  {
    hide NumbersOk, ToMap;
    assert ValueOf(Object(ms)) == Obj(ToMap(PairsOf(ms)));
    NumbersOfPairs(ms);
  }

  lemma {:induction false} NumbersReordered(a: Doc, b: Doc)
    requires AllNumbersOk(a) && Reordered(a, b)
    ensures AllNumbersOk(b)
    decreases a
  {
    hide Rearranged, NumbersOk;
    match a
    case Scalar(_) =>
    case List(xs) =>
      forall i | 0 <= i < |xs| ensures AllNumbersOk(b.items[i]) { NumbersReordered(xs[i], b.items[i]); }
    case Object(ms) =>
      var p :| IsPermutation(p, |ms|) && Rearranged(ms, b.members, p);
      forall j | 0 <= j < |b.members| ensures AllNumbersOk(b.members[j].value) {
        RearrangedAt(ms, b.members, p, j);
        NumbersReordered(ms[p[j]].value, b.members[j].value);
      }
  }

  lemma RearrangedAt(ms: seq<Member>, ns: seq<Member>, p: seq<nat>, j: nat)
    requires Rearranged(ms, ns, p) && j < |ns|
    ensures j < |p| && p[j] < |ms| && Reordered(ms[p[j]].value, ns[j].value)
  {
    hide Reordered;
  }

  lemma {:induction false} ReorderedSelf(d: Doc)
    ensures Reordered(d, d)
    decreases d
  {
    match d
    case Scalar(_) =>
    case List(items) =>
      forall i | 0 <= i < |items| ensures Reordered(items[i], items[i]) { ReorderedSelf(items[i]); }
    case Object(members) =>
      forall i | 0 <= i < |members| ensures Reordered(members[i].value, members[i].value) {
        ReorderedSelf(members[i].value);
      }
      InPlace(members);
  }

  lemma InPlace(ms: seq<Member>)
    requires forall i :: 0 <= i < |ms| ==> Reordered(ms[i].value, ms[i].value)
    ensures Reordered(Object(ms), Object(ms))
  {
    var p := seq(|ms|, i requires 0 <= i < |ms| => i as nat);
    forall i | 0 <= i < |ms| ensures i in p {
      assert p[i] == i;
    }
    assert IsPermutation(p, |ms|);
    assert Rearranged(ms, ms, p) by { hide Reordered; }
  }

  /** A member's value reordered, and the member moved behind all the others. */
  lemma MovedToEnd(ms: seq<Member>, i: nat, v: Doc)
    requires i < |ms| && Reordered(ms[i].value, v)
    ensures Reordered(Object(ms), Object(ToEnd(ms[i := Member(ms[i].key, v)], i)))
  {
    var ns := ToEnd(ms[i := Member(ms[i].key, v)], i);
    var p := Moving(|ms|, i);
    MovingIsPermutation(|ms|, i);
    assert Rearranged(ms, ns, p) by {
      hide Reordered;
      forall j | 0 <= j < |ms| ensures ns[j].key == ms[p[j]].key && Reordered(ms[p[j]].value, ns[j].value) {
        if j < |ms| - 1 { ReorderedSelf(ms[p[j]].value); }
      }
    }
  }

  /** The permutation that moves index i behind all the others. */
  function Moving(n: nat, i: nat): (p: seq<nat>)
    requires i < n
    ensures |p| == n && p[n - 1] == i
    ensures forall j :: 0 <= j < n - 1 ==> p[j] == if j < i then j else j + 1
  {
    seq(n, j requires 0 <= j < n => if j == n - 1 then i else if j < i then j else j + 1)
  }

  lemma MovingIsPermutation(n: nat, i: nat)
    requires i < n
    ensures IsPermutation(Moving(n, i), n)
  {
    var p := Moving(n, i);
    forall k | 0 <= k < n ensures p[k] < n && k in p {
      if k < i {
        assert p[k] == k;
      } else if k > i {
        assert p[k - 1] == k;
      }
    }
  }

  lemma ItemReordered(xs: seq<Doc>, i: nat, e: Doc)
    requires i < |xs| && Reordered(xs[i], e)
    ensures Reordered(List(xs), List(xs[i := e]))
  {
    forall j | 0 <= j < |xs| ensures Reordered(xs[j], xs[i := e][j]) {
      ReorderedSelf(xs[j]);
    }
  }

  /** Two reorderings that end in members with one key and different values have different values. */
  lemma EndsDiffer(xs: seq<Member>, i: nat, ys: seq<Member>, j: nat)
    requires i < |xs| && j < |ys| && xs[i].key == ys[j].key && ValueOf(xs[i].value) != ValueOf(ys[j].value)
    ensures ValueOf(Object(ToEnd(xs, i))) != ValueOf(Object(ToEnd(ys, j)))
  {
    hide ToMap, ToEnd;
    LastMemberWins(xs, i);
    LastMemberWins(ys, j);
    assert ValueOf(Object(ToEnd(xs, i))) == Obj(ToMap(PairsOf(ToEnd(xs, i))));
    assert ValueOf(Object(ToEnd(ys, j))) == Obj(ToMap(PairsOf(ToEnd(ys, j))));
  }

  /** An ambiguous document has two reorderings with different values. */
  lemma {:induction false} TwoValues(d: Doc) returns (e: Doc, f: Doc)
    requires !Unambiguous(d)
    ensures Reordered(d, e) && Reordered(d, f) && ValueOf(e) != ValueOf(f)
    decreases d
  {
    hide Reordered, ValueOf, ToEnd;
    match d
    case List(items) =>
      var i :| 0 <= i < |items| && !Unambiguous(items[i]);
      var x, y := TwoValues(items[i]);
      ItemReordered(items, i, x);
      ItemReordered(items, i, y);
      e, f := List(items[i := x]), List(items[i := y]);
      ItemsDiffer(items, i, x, y);
    case Object(ms) =>
      if i :| 0 <= i < |ms| && !Unambiguous(ms[i].value) {
        var x, y := TwoValues(ms[i].value);
        e, f := MemberInTwoWays(ms, i, x, y);
      } else {
        var i, j :| 0 <= i < j < |ms| && ms[i].key == ms[j].key && ValueOf(ms[i].value) != ValueOf(ms[j].value);
        e, f := ConflictInTwoWays(ms, i, j);
      }
  }

  lemma ItemsDiffer(xs: seq<Doc>, i: nat, x: Doc, y: Doc)
    requires i < |xs| && ValueOf(x) != ValueOf(y)
    ensures ValueOf(List(xs[i := x])) != ValueOf(List(xs[i := y]))
  {
    assert ValueOf(List(xs[i := x])).items[i] == ValueOf(x);
    assert ValueOf(List(xs[i := y])).items[i] == ValueOf(y);
  }

  lemma MemberInTwoWays(ms: seq<Member>, i: nat, x: Doc, y: Doc) returns (e: Doc, f: Doc)
    requires i < |ms| && Reordered(ms[i].value, x) && Reordered(ms[i].value, y) && ValueOf(x) != ValueOf(y)
    ensures Reordered(Object(ms), e) && Reordered(Object(ms), f) && ValueOf(e) != ValueOf(f)
  {
    hide Reordered, ValueOf, ToEnd;
    var xs, ys := ms[i := Member(ms[i].key, x)], ms[i := Member(ms[i].key, y)];
    MovedToEnd(ms, i, x);
    MovedToEnd(ms, i, y);
    EndsDiffer(xs, i, ys, i);
    e, f := Object(ToEnd(xs, i)), Object(ToEnd(ys, i));
  }

  lemma ConflictInTwoWays(ms: seq<Member>, i: nat, j: nat) returns (e: Doc, f: Doc)
    requires i < |ms| && j < |ms| && ms[i].key == ms[j].key && ValueOf(ms[i].value) != ValueOf(ms[j].value)
    ensures Reordered(Object(ms), e) && Reordered(Object(ms), f) && ValueOf(e) != ValueOf(f)
  {
    hide Reordered, ValueOf, ToEnd;
    ReorderedSelf(ms[i].value);
    ReorderedSelf(ms[j].value);
    MovedToEnd(ms, i, ms[i].value);
    MovedToEnd(ms, j, ms[j].value);
    assert ms[i := Member(ms[i].key, ms[i].value)] == ms == ms[j := Member(ms[j].key, ms[j].value)];
    EndsDiffer(ms, i, ms, j);
    e, f := Object(ToEnd(ms, i)), Object(ToEnd(ms, j));
  }

  /** Every reordering of the document, at any depth, gives the same bytes. */
  ghost predicate OnlyValueMatters(d: Doc) {
    forall e :: Reordered(d, e) ==> Canonicalize(e) == Canonicalize(d)
  }

  /**
   * The canonical form of a document is independent of the order of members, at every depth, exactly
   * when no object in it has two members of one key with different values.
   */
  lemma OrderMattersAtAnyDepth(d: Doc)
    requires AllNumbersOk(d)
    ensures OnlyValueMatters(d) <==> Unambiguous(d)
  {
    hide Reordered, Unambiguous, AllNumbersOk, ValueOf, Canon, NumbersOk;
    if Unambiguous(d) {
      forall e | Reordered(d, e) ensures Canonicalize(e) == Canonicalize(d) {
        CanonIgnoresMemberOrder(d, e);
      }
    } else {
      var e, f := TwoValues(d);
      NumbersReordered(d, e);
      NumbersReordered(d, f);
      NumbersOfValue(e);
      NumbersOfValue(f);
      CanonInjective(ValueOf(e), ValueOf(f));
    }
  }

  // ---------------------------------------------------------------- RFC 8785 key order

  /** The UTF-16 code units of one character. */
  function Units(c: char): seq<nat> {
    var n := c as int;
    if n < 0x10000 then [n]
    else [0xD800 + (n - 0x10000) / 0x400, 0xDC00 + (n - 0x10000) % 0x400]
  }

  function Utf16(s: string): seq<nat> {
    if s == "" then [] else Units(s[0]) + Utf16(s[1..])
  }

  predicate LessUnits(a: seq<nat>, b: seq<nat>) {
    b != [] && (a == [] || a[0] < b[0] || (a[0] == b[0] && LessUnits(a[1..], b[1..])))
  }

  /** First difference of a and b; the length of the shorter when one is a prefix of the other. */
  function FirstDifference(a: string, b: string): (i: nat)
    ensures i <= |a| && i <= |b|
    ensures i < |a| && i < |b| ==> a[i] != b[i]
  {
    if a == "" || b == "" || a[0] != b[0] then 0 else 1 + FirstDifference(a[1..], b[1..])
  }

  predicate Astral(c: char) { c as int >= 0x10000 }

  predicate AboveSurrogates(c: char) { 0xE000 <= c as int < 0x10000 }

  /** The characters where code point order and UTF-16 order disagree. */
  predicate Crossing(a: string, b: string) {
    var i := FirstDifference(a, b);
    i < |a| && i < |b| && ((Astral(a[i]) && AboveSurrogates(b[i])) || (AboveSurrogates(a[i]) && Astral(b[i])))
  }

  lemma {:induction false} LessUnitsShared(p: seq<nat>, a: seq<nat>, b: seq<nat>)
    ensures LessUnits(p + a, p + b) <==> LessUnits(a, b)
  {
    if p == [] {
      assert p + a == a && p + b == b;
    } else {
      assert (p + a)[1..] == p[1..] + a && (p + b)[1..] == p[1..] + b;
      LessUnitsShared(p[1..], a, b);
    }
  }

  lemma OneCharacter(c: char, d: char, x: seq<nat>, y: seq<nat>)
    requires c != d
    ensures LessUnits(Units(c) + x, Units(d) + y)
       <==> ((c < d) != ((Astral(c) && AboveSurrogates(d)) || (AboveSurrogates(c) && Astral(d))))
  {
    var u, v := Units(c) + x, Units(d) + y;
    assert u[0] == Units(c)[0] && v[0] == Units(d)[0];
    if Astral(c) && Astral(d) {
      assert u[1..][0] == Units(c)[1] && v[1..][0] == Units(d)[1];
    }
  }

  /**
   * RFC 8785 section 3.2.3 orders keys by UTF-16 code units; the code orders them by bytes, that is
   * by code points. The two agree on a pair of keys exactly when the first characters that differ
   * are not one outside the basic plane and one from U+E000 up inside it.
   */
  lemma {:induction false} KeyOrderIsUtf16Order(a: string, b: string)
    ensures (Less(a, b) <==> LessUnits(Utf16(a), Utf16(b))) <==> !Crossing(a, b)
  {
    if a == "" {
    } else if b == "" {
    } else if a[0] == b[0] {
      KeyOrderIsUtf16Order(a[1..], b[1..]);
      LessUnitsShared(Units(a[0]), Utf16(a[1..]), Utf16(b[1..]));
    } else {
      hide Units;
      OneCharacter(a[0], b[0], Utf16(a[1..]), Utf16(b[1..]));
    }
  }

  /** The first private-use character above the surrogates, and the first one outside the basic plane. */
  lemma KeyOrdersDiffer()
    ensures Less("\U{E000}", "\U{10000}") && !LessUnits(Utf16("\U{E000}"), Utf16("\U{10000}"))
  {
    var a, b := "\U{E000}", "\U{10000}";
    assert FirstDifference(a, b) == 0;
    KeyOrderIsUtf16Order(a, b);
  }

  /** The keys of an emitted object are in the order RFC 8785 asks for exactly when no two of them cross. */
  lemma ObjectKeysInUtf16Order(keys: set<string>)
    ensures (forall i, j :: 0 <= i < j < |SortedKeys(keys)| ==>
               LessUnits(Utf16(SortedKeys(keys)[i]), Utf16(SortedKeys(keys)[j])))
       <==> forall i, j :: 0 <= i < j < |SortedKeys(keys)| ==> !Crossing(SortedKeys(keys)[i], SortedKeys(keys)[j])
  {
    hide SortedKeys, Less, LessUnits, Crossing, Utf16;
    StrictlyAscending(keys);
    var ks := SortedKeys(keys);
    forall i, j | 0 <= i < j < |ks|
      ensures LessUnits(Utf16(ks[i]), Utf16(ks[j])) <==> !Crossing(ks[i], ks[j])
    {
      KeyOrderIsUtf16Order(ks[i], ks[j]);
    }
  }
}
