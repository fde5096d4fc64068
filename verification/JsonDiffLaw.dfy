/** The law of `diff`: replaying `diff(source, target)` on `source` yields `target`. */
module JsonDiffLaw {
  import opened Numbers
  import opened Outcomes
  import opened Decimal
  import opened JsonPointer
  import opened JsonEquality
  import opened JsonValue
  import opened JsonPatch
  import opened JsonDiff

  /** Every index the difference has to name fits the `int` that `std::stoi` returns: those of common elements
      that differ, and, if the lengths differ, those of the elements to remove or add. */
  predicate Addressable(source: Json, target: Json)
    decreases source
  {
    Eq(source, target) || source.Type() != target.Type() ||
    match source
    case Arr(a) =>
      && (|a| == |target.a| || Max(|a|, |target.a|) <= INT_MAX + 1)
      && forall i | 0 <= i < Min(|a|, |target.a|) ::
           Eq(a[i], target.a[i]) || (i <= INT_MAX && Addressable(a[i], target.a[i]))
    case Obj(o) => forall k | k in o && k in target.o :: Addressable(o[k], target.o[k])
    case _ => true
  }

  /** No array has more than 2^31 elements. */
  predicate Fits(j: Json) {
    match j
    case Arr(a) => |a| <= INT_MAX + 1 && forall i | 0 <= i < |a| :: Fits(a[i])
    case Obj(o) => forall k | k in o :: Fits(o[k])
    case _ => true
  }

  lemma {:induction false} FittingIsAddressable(source: Json, target: Json)
    requires Fits(source) && Fits(target)
    ensures Addressable(source, target)
    decreases source
  {
    if source.Type() == target.Type() {
      match source
      case Arr(a) =>
        forall i | 0 <= i < Min(|a|, |target.a|) ensures Addressable(a[i], target.a[i]) {
          FittingIsAddressable(a[i], target.a[i]);
        }
      case Obj(o) =>
        forall k | k in o && k in target.o ensures Addressable(o[k], target.o[k]) {
          FittingIsAddressable(o[k], target.o[k]);
        }
      case _ =>
    }
  }

  /** The target, except that sub-values of the source that compare equal are kept. */
  function Merged(source: Json, target: Json): (m: Json)
    decreases source
  {
    if Eq(source, target) then source
    else if source.Type() != target.Type() then target
    else
      match source
      case Arr(a) =>
        Arr(seq(|target.a|, i requires 0 <= i < |target.a| =>
          if i < |a| then Merged(a[i], target.a[i]) else target.a[i]))
      case Obj(o) =>
        Obj(map k | k in target.o :: if k in o then Merged(o[k], target.o[k]) else target.o[k])
      case _ => target
  }

  /** The merged value compares equal to the target unless the target holds a NaN, which nothing
      compares equal to. */
  lemma {:induction false} MergedEqualsTarget(source: Json, target: Json)
    ensures Eq(Merged(source, target), target) <==> NaNFree(target)
    ensures Merged(source, target).Type() == target.Type() || Eq(source, target)
    decreases source
  {
    EqReflexive(target);
    if Eq(source, target) {
      EqIsNaNFree(source, target);
    } else if source.Type() == target.Type() {
      match source
      case Arr(a) =>
        var b, m := target.a, Merged(source, target).a;
        forall i | 0 <= i < |b| ensures Eq(m[i], b[i]) <==> NaNFree(b[i]) {
          if i < |a| { MergedEqualsTarget(a[i], b[i]); } else { EqReflexive(b[i]); }
        }
      case Obj(o) =>
        var t, m := target.o, Merged(source, target).o;
        forall k | k in t ensures Eq(m[k], t[k]) <==> NaNFree(t[k]) {
          if k in o { MergedEqualsTarget(o[k], t[k]); } else { EqReflexive(t[k]); }
        }
      case _ =>
    }
  }

  // ----- replaying -----

  /** An operation that throws `std::out_of_range` wherever the value it is meant for may lie: an addition not
      only because what the first token names is missing, which is not looked at further down. */
  predicate FailsHere(j: Json, op: Op) {
    && ApplyOp(j, op) == Err(OutOfRange)
    && match op
       case Add(path, v) =>
         path != [] && EditOrCreate(j, path[..|path| - 1], AddChild(path[|path| - 1], v)) == Err(OutOfRange)
       case Remove(path) => path != []
       case Replace(path, v) => true
       case _ => false
  }

  predicate Fails(j: Json, ops: seq<Op>)
    decreases |ops|
  {
    ops != [] && (FailsHere(j, ops[0]) || (ApplyOp(j, ops[0]).Ok? && Fails(ApplyOp(j, ops[0]).value, ops[1..])))
  }

  /** Replaying the operations yields `m` if all is `good` and fails otherwise. */
  predicate Replayed(j: Json, ops: seq<Op>, good: bool, m: Json) {
    if good then ApplyAll(j, ops) == Ok(m) else Fails(j, ops)
  }

  lemma {:induction false} FailsThrows(j: Json, ops: seq<Op>)
    requires Fails(j, ops)
    ensures ApplyAll(j, ops) == Err(OutOfRange)
    decreases |ops|
  {
    if !FailsHere(j, ops[0]) {
      FailsThrows(ApplyOp(j, ops[0]).value, ops[1..]);
    }
  }

  lemma {:induction false} FailsAlready(j: Json, xs: seq<Op>, ys: seq<Op>)
    requires Fails(j, xs)
    ensures Fails(j, xs + ys)
    decreases |xs|
  {
    if !FailsHere(j, xs[0]) {
      FailsAlready(ApplyOp(j, xs[0]).value, xs[1..], ys);
      assert (xs + ys)[1..] == xs[1..] + ys;
    }
  }

  lemma {:induction false} FailsAfter(j: Json, xs: seq<Op>, ys: seq<Op>)
    requires ApplyAll(j, xs).Ok? && Fails(ApplyAll(j, xs).value, ys)
    ensures Fails(j, xs + ys)
    decreases |xs|
  {
    if xs == [] {
      assert xs + ys == ys;
    } else {
      FailsAfter(ApplyOp(j, xs[0]).value, xs[1..], ys);
      assert (xs + ys)[1..] == xs[1..] + ys;
    }
  }

  /** One list of operations after another. */
  lemma ReplayedThen(j: Json, xs: seq<Op>, good: bool, m: Json, ys: seq<Op>, goodToo: bool, n: Json)
    requires Replayed(j, xs, good, m) && (good ==> Replayed(m, ys, goodToo, n))
    ensures Replayed(j, xs + ys, good && goodToo, n)
  {
    if !good {
      FailsAlready(j, xs, ys);
    } else if !goodToo {
      FailsAfter(j, xs, ys);
    } else {
      ApplyAllAppend(j, xs, ys);
    }
  }

  lemma NothingReplayed(j: Json)
    ensures Replayed(j, [], true, j)
  {
  }

  lemma ReplayedOne(j: Json, op: Op)
    ensures ApplyOp(j, op).Ok? ==> Replayed(j, [op], true, ApplyOp(j, op).value)
    ensures FailsHere(j, op) ==> forall m :: Replayed(j, [op], false, m)
  {
    assert [op][1..] == [];
  }

  lemma AdditionFailsBelow(d: Json, p: seq<string>, path: seq<string>, v: Json)
    requires At(d, p).Ok? && FailsHere(At(d, p).value, Add(path, v))
    ensures FailsHere(d, Add(p + path, v))
  {
    hide EditOrCreate, Substituted;
    var full := p + path;
    assert full[..|full| - 1] == p + path[..|path| - 1] && full[|full| - 1] == path[|path| - 1];
    EditOrCreateBelow(d, p, path[..|path| - 1], AddChild(path[|path| - 1], v));
    if p == [] {
      assert full == path;
    } else {
      assert full[..1] == p[..1] && p[..1] + p[1..] == p;
      assert At(d, p[..1]).Ok?;
    }
  }

  lemma RemovalFailsBelow(d: Json, p: seq<string>, path: seq<string>)
    requires At(d, p).Ok? && FailsHere(At(d, p).value, Remove(path))
    ensures FailsHere(d, Remove(p + path))
  {
    hide EditAt, At, Substituted;
    var full := p + path;
    assert full[..|full| - 1] == p + path[..|path| - 1] && full[|full| - 1] == path[|path| - 1];
    EditAtBelow(d, p, path[..|path| - 1], RemoveChild(path[|path| - 1]));
  }

  lemma FailsHereBelow(d: Json, p: seq<string>, op: Op)
    requires At(d, p).Ok? && FailsHere(At(d, p).value, op)
    ensures FailsHere(d, Below(p, op))
  {
    hide EditAt, EditOrCreate, At, Substituted, AddAt, RemoveAt;
    match op
    case Add(path, v) => AdditionFailsBelow(d, p, path, v);
    case Remove(path) => RemovalFailsBelow(d, p, path);
    case Replace(path, v) => EditAtBelow(d, p, path, Put(v));
  }

  lemma {:induction false} FailsBelow(d: Json, p: seq<string>, ops: seq<Op>)
    requires At(d, p).Ok? && Emitted(ops) && Fails(At(d, p).value, ops)
    ensures Fails(d, AllBelow(p, ops))
    decreases |ops|
  {
    hide ApplyOp, FailsHere, At, Substituted;
    var sub := At(d, p).value;
    if FailsHere(sub, ops[0]) {
      FailsHereBelow(d, p, ops[0]);
    } else {
      ApplyOpBelow(d, p, ops[0]);
      var next := ApplyOp(sub, ops[0]).value;
      SubstitutedTwice(d, p, next, next);
      FailsBelow(Substituted(d, p, next).value, p, ops[1..]);
    }
  }

  /** Operations on a sub-document, with the way there put before their paths. */
  lemma ReplayedBelow(d: Json, p: seq<string>, ops: seq<Op>, good: bool, m: Json)
    requires At(d, p).Ok? && Emitted(ops) && Replayed(At(d, p).value, ops, good, m)
    ensures Substituted(d, p, m).Ok?
    ensures Replayed(d, AllBelow(p, ops), good, Substituted(d, p, m).value)
  {
    SubstitutedTwice(d, p, m, m);
    if good {
      PatchIsLocal(d, p, ops);
    } else {
      FailsBelow(d, p, ops);
    }
  }

  /** Equal values are left alone, and only they are. */
  lemma {:induction false} NothingToDo(source: Json, target: Json)
    ensures DiffOps(source, target) == [] <==> Eq(source, target)
    decreases source, 1, 0
  {
    if DiffOps(source, target) == [] && source.Type() == target.Type() && !Eq(source, target) {
      match source
      case Arr(a) =>
        NoElementOps(source, target, Min(|a|, |target.a|));
      case Obj(o) =>
        var t, ks := target.o, SortedKeys(o.Keys);
        NoMemberOps(source, target, ks);
        NoNewMembers(o, t, SortedKeys(t.Keys));
        SameMembers(o, t);
      case _ =>
    }
  }

  lemma SameMembers(o: map<string, Json>, t: map<string, Json>)
    requires forall k :: k in o <==> k in t
    requires forall k | k in o :: Eq(o[k], t[k])
    ensures Eq(Obj(o), Obj(t))
  {
    assert o.Keys == t.Keys;
  }

  lemma {:induction false} NoElementOps(source: Json, target: Json, n: nat)
    requires source.Arr? && target.Arr? && n <= |source.a| && n <= |target.a|
    requires ElementOps(source, target, n) == []
    ensures forall i | 0 <= i < n :: Eq(source.a[i], target.a[i])
    decreases source, 0, n
  {
    if n > 0 {
      NoElementOps(source, target, n - 1);
      NothingToDo(source.a[n - 1], target.a[n - 1]);
    }
  }

  lemma {:induction false} NoMemberOps(source: Json, target: Json, ks: seq<string>)
    requires source.Obj? && target.Obj? && forall k | k in ks :: k in source.o
    requires MemberOps(source, target, ks) == []
    ensures forall k | k in ks :: k in target.o && Eq(source.o[k], target.o[k])
    decreases source, 0, |ks|
  {
    if ks != [] {
      var front, k := ks[..|ks| - 1], ks[|ks| - 1];
      NoMemberOps(source, target, front);
      assert ks == front + [k];
      assert k in target.o;
      NothingToDo(source.o[k], target.o[k]);
    }
  }

  lemma {:induction false} NoNewMembers(o: map<string, Json>, t: map<string, Json>, ks: seq<string>)
    requires forall k | k in ks :: k in t
    requires NewMembers(o, t, ks) == []
    ensures forall k | k in ks :: k in o
    decreases |ks|
  {
    if ks != [] {
      NoNewMembers(o, t, ks[..|ks| - 1]);
      assert ks == ks[..|ks| - 1] + [ks[|ks| - 1]];
    }
  }

  // ----- arrays -----

  /** The token printed for an index resolves to that index. */
  lemma IndexResolves(a: seq<Json>, i: nat)
    requires i < |a| && i <= INT_MAX
    ensures CheckedIndex(a, ToDecimal(i)) == Ok(i)
  {
    var s := ToDecimal(i);
    assert IsDigit(s[0]) && s != "-";
    LeadingZero(i);
    StoiOfIndex(i);
  }

  /** An operation on an element whose index is beyond `int`, or below such an element, throws. */
  lemma BeyondInt(a: seq<Json>, i: nat, op: Op)
    requires i > INT_MAX && (op.Add? || op.Remove? || op.Replace?)
    ensures FailsHere(Arr(a), Below([ToDecimal(i)], op))
  {
    hide ToDecimal, Stoi;
    var token := ToDecimal(i);
    StoiOfIndex(i);
    LeadingZero(i);
    assert IsDigit(token[0]) && token != "-";
    assert CheckedIndex(a, token) == Err(OutOfRange);
    var path := [token] + op.path;
    if op.path == [] {
      assert path[..|path| - 1] == [];
    } else {
      assert path[..|path| - 1] == [token] + op.path[..|op.path| - 1];
      assert path[..1] == [token];
    }
  }

  lemma RemoveElement(x: seq<Json>, token: string, i: nat)
    requires i < |x| && Stoi(token) == Ok(i)
    ensures ApplyOp(Arr(x), Remove([token])) == Ok(Arr(x[..i] + x[i + 1..]))
  {
    var path := [token];
    assert path[..0] == [];
    assert EditAt(Arr(x), path[..0], RemoveChild(token)) == Ok(Arr(x[..i] + x[i + 1..]));
  }

  /** Removing at the last index, unless that index is beyond `int`. */
  lemma RemoveLast(x: seq<Json>)
    requires x != []
    ensures var last := |x| - 1;
      Replayed(Arr(x), [Remove([ToDecimal(last)])], last <= INT_MAX, Arr(x[..last]))
  {
    hide FailsHere, ApplyOp, Replayed, ToDecimal, Stoi;
    var last := |x| - 1;
    var token := ToDecimal(last);
    StoiOfIndex(last);
    if last > INT_MAX {
      BeyondInt(x, last, Remove([]));
      assert [token] + [] == [token];
    } else {
      RemoveElement(x, token, last);
      assert x[..last] + x[last + 1..] == x[..last];
    }
    ReplayedOne(Arr(x), Remove([token]));
  }

  /** Removals in reverse order cut the array, unless the last index is beyond `int`. */
  lemma {:induction false} RemovalsApply(x: seq<Json>, lo: nat)
    requires lo <= |x|
    ensures Replayed(Arr(x), Removals(lo, |x|), lo == |x| || |x| <= INT_MAX + 1, Arr(x[..lo]))
    decreases |x|
  {
    hide Replayed, ToDecimal;
    if lo == |x| {
      NothingReplayed(Arr(x));
      assert x[..lo] == x;
    } else {
      var last := |x| - 1;
      var rest := x[..last];
      RemoveLast(x);
      RemovalsApply(rest, lo);
      assert rest[..lo] == x[..lo];
      ReplayedThen(Arr(x), [Remove([ToDecimal(last)])], last <= INT_MAX, Arr(rest), Removals(lo, last),
                   lo == last || last <= INT_MAX + 1, Arr(x[..lo]));
    }
  }

  lemma AppendElement(x: seq<Json>, token: string, v: Json)
    requires Stoi(token) == Ok(|x|) && token != "-"
    ensures ApplyOp(Arr(x), Add([token], v)) == Ok(Arr(x + [v]))
  {
    var path := [token];
    assert path[..0] == [];
    assert x[..|x|] + [v] + x[|x|..] == x + [v];
    assert EditOrCreate(Arr(x), path[..0], AddChild(token, v)) == Ok(Arr(x + [v]));
  }

  /** Adding at the index one past the end appends, unless that index is beyond `int`. */
  lemma AppendAtIndex(x: seq<Json>, v: Json)
    ensures Replayed(Arr(x), [Add([ToDecimal(|x|)], v)], |x| <= INT_MAX, Arr(x + [v]))
  {
    hide FailsHere, ApplyOp, Replayed, ToDecimal, Stoi;
    var token := ToDecimal(|x|);
    StoiOfIndex(|x|);
    if |x| > INT_MAX {
      BeyondInt(x, |x|, Add([], v));
      assert [token] + [] == [token];
    } else {
      assert IsDigit(token[0]);
      AppendElement(x, token, v);
    }
    ReplayedOne(Arr(x), Add([token], v));
  }

  lemma {:induction false} AdditionsApply(b: seq<Json>, x: seq<Json>, hi: nat)
    requires |x| <= hi <= |b|
    ensures Replayed(Arr(x), Additions(b, |x|, hi), |x| == hi || hi <= INT_MAX + 1, Arr(x + b[|x|..hi]))
    decreases hi
  {
    hide Replayed, ToDecimal;
    var lo := |x|;
    if lo == hi {
      NothingReplayed(Arr(x));
      assert x + b[lo..hi] == x;
    } else {
      AdditionsApply(b, x, hi - 1);
      var y := x + b[lo..hi - 1];
      AppendAtIndex(y, b[hi - 1]);
      assert y + [b[hi - 1]] == x + b[lo..hi];
      ReplayedThen(Arr(x), Additions(b, lo, hi - 1), lo == hi - 1 || hi - 1 <= INT_MAX + 1, Arr(y),
                   [Add([ToDecimal(hi - 1)], b[hi - 1])], hi - 1 <= INT_MAX, Arr(x + b[lo..hi]));
    }
  }

  /** Operations for one element of an array; there are none for elements that are equal. */
  lemma ReplayedElement(x: seq<Json>, i: nat, ops: seq<Op>, good: bool, m: Json)
    requires i < |x| && Emitted(ops) && Replayed(x[i], ops, good, m)
    ensures Replayed(Arr(x), AllBelow([ToDecimal(i)], ops), ops == [] || (good && i <= INT_MAX), Arr(x[i := m]))
  {
    var p := [ToDecimal(i)];
    if ops == [] {
      assert x[i := m] == x;
    } else if i <= INT_MAX {
      IndexResolves(x, i);
      assert p[1..] == [] && At(Arr(x), p) == Ok(x[i]);
      ReplayedBelow(Arr(x), p, ops, good, m);
      assert Substituted(x[i], p[1..], m) == Ok(m);
    } else {
      BeyondInt(x, i, ops[0]);
    }
  }

  /** The source's elements after the first `n` have been treated. */
  function PartlyMerged(source: Json, target: Json, n: nat): (x: seq<Json>)
    requires source.Arr? && target.Arr? && n <= |source.a| && n <= |target.a|
    ensures |x| == |source.a|
    ensures forall i | 0 <= i < |x| :: x[i] == if i < n then Merged(source.a[i], target.a[i]) else source.a[i]
  {
    seq(|source.a|, i requires 0 <= i < |source.a| =>
      if i < n then Merged(source.a[i], target.a[i]) else source.a[i])
  }

  /** The operations for the first `n` common elements can be addressed. */
  predicate ElementsAddressable(a: seq<Json>, b: seq<Json>, n: nat)
    requires n <= |a| && n <= |b|
  {
    forall i | 0 <= i < n :: Eq(a[i], b[i]) || (i <= INT_MAX && Addressable(a[i], b[i]))
  }

  lemma {:induction false} ElementOpsApply(source: Json, target: Json, n: nat)
    requires source.Arr? && target.Arr? && n <= |source.a| && n <= |target.a|
    ensures Replayed(source, ElementOps(source, target, n), ElementsAddressable(source.a, target.a, n),
                     Arr(PartlyMerged(source, target, n)))
    decreases source, 0, n
  {
    hide Replayed, Eq, Addressable, DiffOps, Merged, ToDecimal;
    if n == 0 {
      NothingReplayed(source);
      assert PartlyMerged(source, target, n) == source.a;
    } else {
      var i := n - 1;
      var x, y := source.a[i], target.a[i];
      var ops, m := DiffOps(x, y), Merged(x, y);
      var before := PartlyMerged(source, target, i);
      ElementOpsApply(source, target, i);
      DiffApplies(x, y);
      DiffOpsEmitted(x, y);
      NothingToDo(x, y);
      ReplayedElement(before, i, ops, Addressable(x, y), m);
      assert before[i := m] == PartlyMerged(source, target, n);
      ReplayedThen(source, ElementOps(source, target, i), ElementsAddressable(source.a, target.a, i), Arr(before),
                   AllBelow([ToDecimal(i)], ops), Eq(x, y) || (i <= INT_MAX && Addressable(x, y)),
                   Arr(before[i := m]));
    }
  }

  lemma ArrayAddressable(source: Json, target: Json)
    requires source.Arr? && target.Arr? && !Eq(source, target)
    ensures var a, b := source.a, target.a; var n := Min(|a|, |b|);
      Addressable(source, target) <==>
        ElementsAddressable(a, b, n) && (n == |a| || |a| <= INT_MAX + 1) && (n == |b| || |b| <= INT_MAX + 1)
  {
  }

  lemma {:induction false} ArrayDiffApplies(source: Json, target: Json)
    requires source.Arr? && target.Arr? && !Eq(source, target)
    ensures Replayed(source, DiffOps(source, target), Addressable(source, target), Merged(source, target))
    decreases source, 1, 0
  {
    hide Replayed, Addressable, ElementsAddressable, Merged;
    var a, b := source.a, target.a;
    var n := Min(|a|, |b|);
    var common, removals := ElementOps(source, target, n), Removals(n, |a|);
    var x := PartlyMerged(source, target, n);
    var good, short := ElementsAddressable(a, b, n), n == |a| || |a| <= INT_MAX + 1;
    ElementOpsApply(source, target, n);
    RemovalsApply(x, n);
    ReplayedThen(source, common, good, Arr(x), removals, short, Arr(x[..n]));
    AdditionsApply(b, x[..n], |b|);
    ReplayedThen(source, common + removals, good && short, Arr(x[..n]), Additions(b, n, |b|),
                 n == |b| || |b| <= INT_MAX + 1, Arr(x[..n] + b[n..|b|]));
    ArrayAddressable(source, target);
    ElementsComplete(source, target);
  }

  lemma MergedArray(source: Json, target: Json)
    requires source.Arr? && target.Arr? && !Eq(source, target)
    ensures var m, a, b := Merged(source, target), source.a, target.a;
      && m.Arr? && |m.a| == |b|
      && forall i | 0 <= i < |b| :: m.a[i] == if i < |a| then Merged(a[i], b[i]) else b[i]
  {
    hide Eq;
  }

  lemma ElementsComplete(source: Json, target: Json)
    requires source.Arr? && target.Arr? && !Eq(source, target)
    ensures var n := Min(|source.a|, |target.a|);
      Arr(PartlyMerged(source, target, n)[..n] + target.a[n..|target.a|]) == Merged(source, target)
  {
    hide Eq, Merged, PartlyMerged;
    MergedArray(source, target);
    var n := Min(|source.a|, |target.a|);
    assert PartlyMerged(source, target, n)[..n] + target.a[n..|target.a|] == Merged(source, target).a;
  }

  // ----- objects -----

  /** Operations for one member of an object. */
  lemma ReplayedMember(o: map<string, Json>, k: string, ops: seq<Op>, good: bool, m: Json)
    requires k in o && Emitted(ops) && Replayed(o[k], ops, good, m)
    ensures Replayed(Obj(o), AllBelow([k], ops), good, Obj(o[k := m]))
  {
    var p := [k];
    assert p[1..] == [];
    assert At(Obj(o), p) == Ok(o[k]);
    ReplayedBelow(Obj(o), p, ops, good, m);
    assert Substituted(o[k], p[1..], m) == Ok(m);
  }

  /** The operations that drop and create a member. */
  lemma DropOrCreateMember(o: map<string, Json>, k: string, v: Json)
    ensures k in o ==> Replayed(Obj(o), [Remove([k])], true, Obj(o - {k}))
    ensures Replayed(Obj(o), [Add([k], v)], true, Obj(o[k := v]))
  {
    ReplayedOne(Obj(o), Remove([k]));
    ReplayedOne(Obj(o), Add([k], v));
  }

  /** The source's members after those named in `ks` have been treated. */
  function Treated(o: map<string, Json>, t: map<string, Json>, ks: seq<string>): map<string, Json> {
    map k | k in o && (k !in ks || k in t) :: if k in ks then Merged(o[k], t[k]) else o[k]
  }

  /** The operations for the members `ks` can be addressed. */
  predicate MembersAddressable(o: map<string, Json>, t: map<string, Json>, ks: seq<string>)
    requires forall k | k in ks :: k in o
  {
    forall k | k in ks && k in t :: Addressable(o[k], t[k])
  }

  lemma TreatedStep(o: map<string, Json>, t: map<string, Json>, ks: seq<string>, k: string)
    requires k in o && k !in ks && forall x | x in ks :: x in o
    ensures k in Treated(o, t, ks) && Treated(o, t, ks)[k] == o[k]
    ensures Treated(o, t, ks + [k]) ==
      if k in t then Treated(o, t, ks)[k := Merged(o[k], t[k])] else Treated(o, t, ks) - {k}
    ensures forall x | x in ks + [k] :: x in o
    ensures MembersAddressable(o, t, ks + [k]) <==>
      MembersAddressable(o, t, ks) && (k in t ==> Addressable(o[k], t[k]))
  {
    var next := ks + [k];
    assert forall x :: x in next <==> x in ks || x == k;
  }

  lemma {:induction false} MemberOpsApply(source: Json, target: Json, ks: seq<string>)
    requires source.Obj? && target.Obj? && forall k | k in ks :: k in source.o
    requires forall i, j | 0 <= i < j < |ks| :: ks[i] != ks[j]
    ensures Replayed(source, MemberOps(source, target, ks), MembersAddressable(source.o, target.o, ks),
                     Obj(Treated(source.o, target.o, ks)))
    decreases source, 0, |ks|
  {
    hide Replayed, Treated, MembersAddressable, DiffOps, Merged;
    var o, t := source.o, target.o;
    if ks == [] {
      NothingTreated(o, t);
      NothingReplayed(source);
    } else {
      var front, k := ks[..|ks| - 1], ks[|ks| - 1];
      assert k !in front;
      MemberOpsApply(source, target, front);
      assert ks == front + [k];
      TreatedStep(o, t, front, k);
      var before, after := Treated(o, t, front), Treated(o, t, ks);
      var first, good := MemberOps(source, target, front), MembersAddressable(o, t, front);
      if k in t {
        DiffApplies(o[k], t[k]);
        DiffOpsEmitted(o[k], t[k]);
        ReplayedMember(before, k, DiffOps(o[k], t[k]), Addressable(o[k], t[k]), Merged(o[k], t[k]));
        ReplayedThen(source, first, good, Obj(before), AllBelow([k], DiffOps(o[k], t[k])),
                     Addressable(o[k], t[k]), Obj(after));
      } else {
        DropOrCreateMember(before, k, Null);
        ReplayedThen(source, first, good, Obj(before), [Remove([k])], true, Obj(after));
      }
    }
  }

  lemma NothingTreated(o: map<string, Json>, t: map<string, Json>)
    ensures Treated(o, t, []) == o && MembersAddressable(o, t, [])
  {
  }

  /** `m` with those members `ks` of `t` that `o` lacks. */
  function Extended(o: map<string, Json>, t: map<string, Json>, m: map<string, Json>, ks: seq<string>)
    : map<string, Json>
    requires forall k | k in ks :: k in t
  {
    m + map k | k in ks && k !in o :: t[k]
  }

  lemma ExtendedStep(o: map<string, Json>, t: map<string, Json>, m: map<string, Json>, ks: seq<string>, k: string)
    requires k in t && forall x | x in ks :: x in t
    ensures forall x | x in ks + [k] :: x in t
    ensures Extended(o, t, m, ks + [k]) ==
      if k in o then Extended(o, t, m, ks) else Extended(o, t, m, ks)[k := t[k]]
  {
    var next := ks + [k];
    assert forall x :: x in next <==> x in ks || x == k;
  }

  lemma {:induction false} NewMembersApply(o: map<string, Json>, t: map<string, Json>, m: map<string, Json>,
                                           ks: seq<string>)
    requires forall k | k in ks :: k in t
    ensures Replayed(Obj(m), NewMembers(o, t, ks), true, Obj(Extended(o, t, m, ks)))
    decreases |ks|
  {
    hide Replayed;
    if ks == [] {
      NothingReplayed(Obj(m));
      assert Extended(o, t, m, ks) == m;
    } else {
      var front, k := ks[..|ks| - 1], ks[|ks| - 1];
      NewMembersApply(o, t, m, front);
      assert ks == front + [k];
      ExtendedStep(o, t, m, front, k);
      var ops, before := NewMembers(o, t, front), Extended(o, t, m, front);
      if k in o {
        assert ops + [] == ops;
      } else {
        DropOrCreateMember(before, k, t[k]);
        ReplayedThen(Obj(m), ops, true, Obj(before), [Add([k], t[k])], true, Obj(before[k := t[k]]));
      }
    }
  }

  lemma MembersComplete(source: Json, target: Json, ks: seq<string>, news: seq<string>)
    requires source.Obj? && target.Obj? && !Eq(source, target)
    requires forall k :: k in ks <==> k in source.o
    requires forall k :: k in news <==> k in target.o
    ensures Obj(Extended(source.o, target.o, Treated(source.o, target.o, ks), news)) == Merged(source, target)
  {
    hide Merged, Eq;
    MergedObject(source, target);
    assert Extended(source.o, target.o, Treated(source.o, target.o, ks), news) == Merged(source, target).o;
  }

  lemma MergedObject(source: Json, target: Json)
    requires source.Obj? && target.Obj? && !Eq(source, target)
    ensures var m := Merged(source, target);
      && m.Obj? && m.o.Keys == target.o.Keys
      && forall k | k in target.o ::
           m.o[k] == if k in source.o then Merged(source.o[k], target.o[k]) else target.o[k]
  {
    hide Eq;
  }

  lemma ObjectAddressable(source: Json, target: Json, ks: seq<string>)
    requires source.Obj? && target.Obj? && !Eq(source, target)
    requires forall k :: k in ks <==> k in source.o
    ensures Addressable(source, target) <==> MembersAddressable(source.o, target.o, ks)
  {
  }

  lemma {:induction false} ObjectDiffApplies(source: Json, target: Json)
    requires source.Obj? && target.Obj? && !Eq(source, target)
    ensures Replayed(source, DiffOps(source, target), Addressable(source, target), Merged(source, target))
    decreases source, 1, 0
  {
    hide Replayed, Addressable, MembersAddressable, Merged, Treated, Extended, Sorted;
    var o, t := source.o, target.o;
    var ks, news := SortedKeys(o.Keys), SortedKeys(t.Keys);
    forall i, j | 0 <= i < j < |ks| ensures ks[i] != ks[j] { SortedDistinct(ks, i, j); }
    MemberOpsApply(source, target, ks);
    var treated := Treated(o, t, ks);
    NewMembersApply(o, t, treated, news);
    ReplayedThen(source, MemberOps(source, target, ks), MembersAddressable(o, t, ks), Obj(treated),
                 NewMembers(o, t, news), true, Obj(Extended(o, t, treated, news)));
    ObjectAddressable(source, target, ks);
    MembersComplete(source, target, ks, news);
  }

  // ----- the law -----

  /** The operations of a diff produce the merged value if they can be addressed, and throw otherwise. */
  lemma {:induction false} DiffApplies(source: Json, target: Json)
    ensures Replayed(source, DiffOps(source, target), Addressable(source, target), Merged(source, target))
    decreases source, 2, 0
  {
    if !Eq(source, target) {
      if source.Type() == target.Type() && source.Arr? {
        ArrayDiffApplies(source, target);
      } else if source.Type() == target.Type() && source.Obj? {
        ObjectDiffApplies(source, target);
      } else {
        assert DiffOps(source, target) == [Replace([], target)];
        assert ApplyOp(source, Replace([], target)) == Ok(target);
      }
    }
  }

  /** Reading back the objects `diff` writes, when nothing is put before the paths. */
  lemma DecodeEncoded(op: Op)
    requires op.Add? || op.Remove? || op.Replace?
    ensures DecodeOp(EncodeOp("", op)) == Ok(op)
  {
    SplitToString(op.path);
    assert "" + ToString(op.path) == ToString(op.path);
  }

  lemma {:induction false} ElementsApply(j: Json, ops: seq<Op>)
    requires Emitted(ops)
    ensures ApplyElements(j, EncodeAll("", ops)) == ApplyAll(j, ops)
    decreases |ops|
  {
    if ops != [] {
      DecodeEncoded(ops[0]);
      assert EncodeAll("", ops)[1..] == EncodeAll("", ops[1..]);
      var next := ApplyOp(j, ops[0]);
      if next.Ok? {
        ElementsApply(next.value, ops[1..]);
      }
    }
  }

  /** The JSON document `diff(source, target)`. */
  function DiffDocument(source: Json, target: Json): Json {
    DiffOpsEmitted(source, target);
    Arr(EncodeAll("", DiffOps(source, target)))
  }

  /** Patching the source with the difference throws `std::out_of_range` if an index cannot be addressed, and
      yields the merged value otherwise. */
  lemma PatchSucceeds(source: Json, target: Json)
    ensures var patched := Patched(source, DiffDocument(source, target));
      if Addressable(source, target) then patched == Ok(Merged(source, target)) else patched == Err(OutOfRange)
  {
    hide DiffOps, Addressable, Merged, Emitted;
    DiffOpsEmitted(source, target);
    ElementsApply(source, DiffOps(source, target));
    DiffApplies(source, target);
    if !Addressable(source, target) { FailsThrows(source, DiffOps(source, target)); }
  }

  /** `source.patch(diff(source, target)) == target`, under the library's equality, exactly when the target holds
      no NaN and every index that has to be named fits an `int`. */
  lemma PatchOfDiff(source: Json, target: Json)
    ensures var patched := Patched(source, DiffDocument(source, target));
      patched.Ok? && Eq(patched.value, target) <==> Addressable(source, target) && NaNFree(target)
  {
    hide Patched, DiffDocument, Merged, Addressable, NaNFree, Eq;
    PatchSucceeds(source, target);
    MergedEqualsTarget(source, target);
  }

  /** Nothing is kept of the source but what is the same in the target, numbers aside. */
  lemma {:induction false} MergedIsTarget(source: Json, target: Json)
    requires NumberFree(target)
    ensures Merged(source, target) == target
    decreases source
  {
    hide Eq;
    EqIsIdentity(source, target);
    if source != target && source.Type() == target.Type() {
      match source
      case Arr(a) =>
        var b, m := target.a, Merged(source, target).a;
        forall i | 0 <= i < |b| ensures m[i] == b[i] {
          if i < |a| { MergedIsTarget(a[i], b[i]); }
        }
        assert m == b;
      case Obj(o) =>
        var t, m := target.o, Merged(source, target).o;
        forall k | k in t ensures m[k] == t[k] {
          if k in o { MergedIsTarget(o[k], t[k]); }
        }
        assert m.Keys == t.Keys;
        assert m == t;
      case _ =>
    }
  }

  /** Whatever the source: a target without numbers is reached exactly. */
  lemma PatchYieldsTarget(source: Json, target: Json)
    requires NumberFree(target)
    ensures Patched(source, DiffDocument(source, target)) ==
      if Addressable(source, target) then Ok(target) else Err(OutOfRange)
  {
    hide Patched, DiffDocument, Merged, Addressable;
    PatchSucceeds(source, target);
    MergedIsTarget(source, target);
  }

  /** A difference that does not lead to its target: the result is a NaN too, but no two are equal. */
  lemma NaNTargetIsMissed()
    ensures var target := Float(NaN);
      var patched := Patched(Null, DiffDocument(Null, target));
      patched == Ok(target) && !Eq(patched.value, target)
  {
    PatchSucceeds(Null, Float(NaN));
  }

  /** The two calls in sequence, as a user of the library writes them. */
  method DiffThenPatch(source: Json, target: Json) returns (patched: Result<Json>)
    ensures if Addressable(source, target) then patched.Ok? else patched == Err(OutOfRange)
    ensures patched.Ok? && Eq(patched.value, target) <==> Addressable(source, target) && NaNFree(target)
  {
    var operations := Diff(source, target, "");
    patched := Patch(source, Arr(operations));
    PatchSucceeds(source, target);
    PatchOfDiff(source, target);
  }
}
