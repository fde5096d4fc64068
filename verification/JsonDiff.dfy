/** `diff`: the patch that turns one value into another, and what replaying it yields. */
module JsonDiff {
  import opened Numbers
  import opened Decimal
  import opened JsonPointer
  import opened JsonValue
  import opened JsonPatch

  // ----- the operations of a diff -----

  /** The operations `diff` emits, with paths relative to the two values. */
  function DiffOps(source: Json, target: Json): seq<Op>
    decreases source, 1, 0
  {
    if Eq(source, target) then []
    else if source.Type() != target.Type() then [Replace([], target)]
    else
      match source
      case Arr(a) =>
        var n := Min(|a|, |target.a|);
        ElementOps(source, target, n) + Removals(n, |a|) + Additions(target.a, n, |target.a|)
      case Obj(o) =>
        MemberOps(source, target, SortedKeys(o.Keys)) + NewMembers(o, target.o, SortedKeys(target.o.Keys))
      case _ => [Replace([], target)]
  }

  /** The operations for the first `n` common elements of two arrays. */
  function ElementOps(source: Json, target: Json, n: nat): seq<Op>
    requires source.Arr? && target.Arr? && n <= |source.a| && n <= |target.a|
    decreases source, 0, n
  {
    if n == 0 then []
    else ElementOps(source, target, n - 1)
         + AllBelow([ToDecimal(n - 1)], DiffOps(source.a[n - 1], target.a[n - 1]))
  }

  /** Removals of the indices from `hi` - 1 down to `lo`. */
  function Removals(lo: nat, hi: nat): seq<Op>
    decreases hi
  {
    if hi <= lo then [] else [Remove([ToDecimal(hi - 1)])] + Removals(lo, hi - 1)
  }

  /** Additions of the elements `lo` to `hi` - 1. */
  function Additions(b: seq<Json>, lo: nat, hi: nat): seq<Op>
    requires hi <= |b|
    decreases hi
  {
    if hi <= lo then [] else Additions(b, lo, hi - 1) + [Add([ToDecimal(hi - 1)], b[hi - 1])]
  }

  /** The operations for the members `ks` of the source. */
  function MemberOps(source: Json, target: Json, ks: seq<string>): seq<Op>
    requires source.Obj? && target.Obj? && forall k | k in ks :: k in source.o
    decreases source, 0, |ks|
  {
    if ks == [] then []
    else
      var front, k := ks[..|ks| - 1], ks[|ks| - 1];
      MemberOps(source, target, front)
      + if k in target.o then AllBelow([k], DiffOps(source.o[k], target.o[k])) else [Remove([k])]
  }

  /** The operations for those members `ks` of the target that the source lacks. */
  function NewMembers(o: map<string, Json>, t: map<string, Json>, ks: seq<string>): seq<Op>
    requires forall k | k in ks :: k in t
    decreases |ks|
  {
    if ks == [] then []
    else
      var front, k := ks[..|ks| - 1], ks[|ks| - 1];
      NewMembers(o, t, front) + if k in o then [] else [Add([k], t[k])]
  }

  // ----- the patch document -----

  function OpObject(op: string, path: string): map<string, Json> {
    map["op" := Str(op), "path" := Str(path)]
  }

  /** The JSON object for an operation at `path` followed by the operation's own path. */
  function EncodeOp(path: string, op: Op): Json
    requires op.Add? || op.Remove? || op.Replace?
  {
    match op
    case Add(q, v) => Obj(OpObject("add", path + ToString(q))["value" := v])
    case Remove(q) => Obj(OpObject("remove", path + ToString(q)))
    case Replace(q, v) => Obj(OpObject("replace", path + ToString(q))["value" := v])
  }

  predicate Emitted(ops: seq<Op>) {
    forall i | 0 <= i < |ops| :: (ops[i].Add? || ops[i].Remove? || ops[i].Replace?) && Local(ops[i])
  }

  function EncodeAll(path: string, ops: seq<Op>): (elements: seq<Json>)
    requires Emitted(ops)
    ensures |elements| == |ops|
  {
    if ops == [] then [] else [EncodeOp(path, ops[0])] + EncodeAll(path, ops[1..])
  }

  lemma {:induction false} EncodeAllAppend(path: string, xs: seq<Op>, ys: seq<Op>)
    requires Emitted(xs) && Emitted(ys)
    ensures Emitted(xs + ys)
    ensures EncodeAll(path, xs + ys) == EncodeAll(path, xs) + EncodeAll(path, ys)
  {
    hide EncodeOp, Local;
    if xs == [] {
      assert xs + ys == ys;
    } else {
      assert (xs + ys)[1..] == xs[1..] + ys;
      EncodeAllAppend(path, xs[1..], ys);
    }
  }

  lemma {:induction false} EmittedBelow(p: seq<string>, ops: seq<Op>)
    requires Emitted(ops)
    ensures Emitted(AllBelow(p, ops))
  {
    if ops != [] {
      EmittedBelow(p, ops[1..]);
    }
  }

  lemma {:induction false} RemovalsEmitted(lo: nat, hi: nat)
    ensures Emitted(Removals(lo, hi))
    decreases hi
  {
    if lo < hi {
      RemovalsEmitted(lo, hi - 1);
    }
  }

  lemma {:induction false} AdditionsEmitted(b: seq<Json>, lo: nat, hi: nat)
    requires hi <= |b|
    ensures Emitted(Additions(b, lo, hi))
    decreases hi
  {
    if lo < hi {
      AdditionsEmitted(b, lo, hi - 1);
    }
  }

  lemma {:induction false} NewMembersEmitted(o: map<string, Json>, t: map<string, Json>, ks: seq<string>)
    requires forall k | k in ks :: k in t
    ensures Emitted(NewMembers(o, t, ks))
    decreases |ks|
  {
    if ks != [] {
      NewMembersEmitted(o, t, ks[..|ks| - 1]);
    }
  }

  /** A diff consists of `add`, `remove` and `replace` only, and adds and removes below the root. */
  lemma {:induction false} DiffOpsEmitted(source: Json, target: Json)
    ensures Emitted(DiffOps(source, target))
    decreases source, 1, 0
  {
    if !Eq(source, target) && source.Type() == target.Type() {
      match source
      case Arr(a) =>
        var n := Min(|a|, |target.a|);
        ElementOpsEmitted(source, target, n);
        RemovalsEmitted(n, |a|);
        AdditionsEmitted(target.a, n, |target.a|);
      case Obj(o) =>
        MemberOpsEmitted(source, target, SortedKeys(o.Keys));
        NewMembersEmitted(o, target.o, SortedKeys(target.o.Keys));
      case _ =>
    }
  }

  lemma {:induction false} ElementOpsEmitted(source: Json, target: Json, n: nat)
    requires source.Arr? && target.Arr? && n <= |source.a| && n <= |target.a|
    ensures Emitted(ElementOps(source, target, n))
    decreases source, 0, n
  {
    if n > 0 {
      ElementOpsEmitted(source, target, n - 1);
      DiffOpsEmitted(source.a[n - 1], target.a[n - 1]);
      EmittedBelow([ToDecimal(n - 1)], DiffOps(source.a[n - 1], target.a[n - 1]));
    }
  }

  lemma {:induction false} MemberOpsEmitted(source: Json, target: Json, ks: seq<string>)
    requires source.Obj? && target.Obj? && forall k | k in ks :: k in source.o
    ensures Emitted(MemberOps(source, target, ks))
    decreases source, 0, |ks|
  {
    if ks != [] {
      var front, k := ks[..|ks| - 1], ks[|ks| - 1];
      MemberOpsEmitted(source, target, front);
      if k in target.o {
        DiffOpsEmitted(source.o[k], target.o[k]);
        EmittedBelow([k], DiffOps(source.o[k], target.o[k]));
      }
    }
  }

  /** Prefixing a path in the text is prefixing tokens. */
  lemma {:induction false} EncodeAllBelow(path: string, token: string, ops: seq<Op>)
    requires Emitted(ops)
    ensures Emitted(AllBelow([token], ops))
    ensures EncodeAll(path + Segment(token), ops) == EncodeAll(path, AllBelow([token], ops))
  {
    EmittedBelow([token], ops);
    if ops != [] {
      EncodeAllBelow(path, token, ops[1..]);
      var q := ops[0].path;
      ToStringCons(token, q);
      assert path + Segment(token) + ToString(q) == path + ToString([token] + q);
      assert AllBelow([token], ops)[1..] == AllBelow([token], ops[1..]);
    }
  }

  // ----- the method -----

  /** The elements `diff` has emitted after `i` common array elements. */
  lemma ElementStep(source: Json, target: Json, path: string, i: nat)
    requires source.Arr? && target.Arr? && i < |source.a| && i < |target.a|
    ensures Emitted(ElementOps(source, target, i)) && Emitted(ElementOps(source, target, i + 1))
    ensures Emitted(DiffOps(source.a[i], target.a[i]))
    ensures EncodeAll(path, ElementOps(source, target, i + 1)) ==
      EncodeAll(path, ElementOps(source, target, i))
      + EncodeAll(path + "/" + ToDecimal(i), DiffOps(source.a[i], target.a[i]))
  {
    var inner := DiffOps(source.a[i], target.a[i]);
    ElementOpsEmitted(source, target, i);
    DiffOpsEmitted(source.a[i], target.a[i]);
    IndexSegment(i);
    assert path + Segment(ToDecimal(i)) == path + "/" + ToDecimal(i);
    EncodeAllBelow(path, ToDecimal(i), inner);
    EncodeAllAppend(path, ElementOps(source, target, i), AllBelow([ToDecimal(i)], inner));
  }

  function RemoveObject(path: string, segment: string): Json {
    Obj(OpObject("remove", path + "/" + segment))
  }

  function AddObject(path: string, segment: string, v: Json): Json {
    Obj(OpObject("add", path + "/" + segment)["value" := v])
  }

  /** What is printed for a removal and an addition of one token. */
  lemma EncodeOne(path: string, token: string, v: Json)
    ensures EncodeAll(path, [Remove([token])]) == [RemoveObject(path, Escape(token))]
    ensures EncodeAll(path, [Add([token], v)]) == [AddObject(path, Escape(token), v)]
  {
    KeySegment(token);
    assert path + ToString([token]) == path + "/" + Escape(token);
  }

  lemma RemovalStep(path: string, lo: nat, i: nat)
    requires lo <= i
    ensures Emitted(Removals(lo, i)) && Emitted(Removals(lo, i + 1))
    ensures EncodeAll(path, Removals(lo, i + 1)) ==
      [RemoveObject(path, ToDecimal(i))] + EncodeAll(path, Removals(lo, i))
  {
    RemovalsEmitted(lo, i);
    EscapeDigits(ToDecimal(i));
    EncodeOne(path, ToDecimal(i), Null);
    EncodeAllAppend(path, [Remove([ToDecimal(i)])], Removals(lo, i));
  }

  lemma AdditionStep(path: string, b: seq<Json>, lo: nat, i: nat)
    requires lo <= i < |b|
    ensures Emitted(Additions(b, lo, i)) && Emitted(Additions(b, lo, i + 1))
    ensures EncodeAll(path, Additions(b, lo, i + 1)) ==
      EncodeAll(path, Additions(b, lo, i)) + [AddObject(path, ToDecimal(i), b[i])]
  {
    AdditionsEmitted(b, lo, i);
    EscapeDigits(ToDecimal(i));
    EncodeOne(path, ToDecimal(i), b[i]);
    EncodeAllAppend(path, Additions(b, lo, i), [Add([ToDecimal(i)], b[i])]);
  }

  /** What one member of the source contributes. */
  lemma MemberStep(source: Json, target: Json, path: string, ks: seq<string>, k: string)
    requires source.Obj? && target.Obj? && k in source.o && forall x | x in ks :: x in source.o
    ensures Emitted(MemberOps(source, target, ks)) && Emitted(MemberOps(source, target, ks + [k]))
    ensures k in target.o ==> Emitted(DiffOps(source.o[k], target.o[k]))
    ensures EncodeAll(path, MemberOps(source, target, ks + [k])) ==
      EncodeAll(path, MemberOps(source, target, ks))
      + if k in target.o then EncodeAll(path + "/" + Escape(k), DiffOps(source.o[k], target.o[k]))
        else [RemoveObject(path, Escape(k))]
  {
    MemberOpsEmitted(source, target, ks);
    assert (ks + [k])[..|ks|] == ks;
    if k in target.o {
      var inner := DiffOps(source.o[k], target.o[k]);
      DiffOpsEmitted(source.o[k], target.o[k]);
      assert path + Segment(k) == path + "/" + Escape(k);
      EncodeAllBelow(path, k, inner);
      EncodeAllAppend(path, MemberOps(source, target, ks), AllBelow([k], inner));
    } else {
      EncodeOne(path, k, Null);
      EncodeAllAppend(path, MemberOps(source, target, ks), [Remove([k])]);
    }
  }

  lemma NewMemberStep(o: map<string, Json>, t: map<string, Json>, path: string, ks: seq<string>, k: string)
    requires k in t && forall x | x in ks :: x in t
    ensures Emitted(NewMembers(o, t, ks)) && Emitted(NewMembers(o, t, ks + [k]))
    ensures EncodeAll(path, NewMembers(o, t, ks + [k])) ==
      EncodeAll(path, NewMembers(o, t, ks)) + if k in o then [] else [AddObject(path, Escape(k), t[k])]
  {
    NewMembersEmitted(o, t, ks);
    assert (ks + [k])[..|ks|] == ks;
    if k !in o {
      EncodeOne(path, k, t[k]);
      EncodeAllAppend(path, NewMembers(o, t, ks), [Add([k], t[k])]);
    } else {
      assert NewMembers(o, t, ks) + [] == NewMembers(o, t, ks);
    }
  }

  /** `diff`, for any text put before the paths. */
  method Diff(source: Json, target: Json, path: string) returns (result: seq<Json>)
    ensures Emitted(DiffOps(source, target)) && result == EncodeAll(path, DiffOps(source, target))
    decreases source, 2
  {
    DiffOpsEmitted(source, target);
    if Eq(source, target) {
      return [];
    }
    if source.Type() == target.Type() && source.Arr? {
      result := DiffArrays(source, target, path);
    } else if source.Type() == target.Type() && source.Obj? {
      result := DiffObjects(source, target, path);
    } else {
      assert DiffOps(source, target) == [Replace([], target)];
      assert path + ToString([]) == path;
      result := [Obj(OpObject("replace", path)["value" := target])];
    }
  }

  /** The array case: common elements, then removals in reverse order, then additions. */
  method DiffArrays(source: Json, target: Json, path: string) returns (result: seq<Json>)
    requires source.Arr? && target.Arr? && !Eq(source, target)
    ensures Emitted(DiffOps(source, target)) && result == EncodeAll(path, DiffOps(source, target))
    decreases source, 1
  {
    var i;
    result, i := DiffElements(source, target, path);
    result := InsertRemovals(result, path, i, |source.a|);
    result := AppendAdditions(result, path, target.a, i);
    ghost var removals, additions := Removals(i, |source.a|), Additions(target.a, i, |target.a|);
    EncodeAllAppend(path, ElementOps(source, target, i), removals);
    EncodeAllAppend(path, ElementOps(source, target, i) + removals, additions);
  }

  /** The second pass: each removal goes in front of the ones for lower indices. */
  method InsertRemovals(common: seq<Json>, path: string, lo: nat, hi: nat) returns (result: seq<Json>)
    ensures Emitted(Removals(lo, hi)) && result == common + EncodeAll(path, Removals(lo, hi))
  {
    result := common;
    var endIndex := |result|;
    var i := lo;
    RemovalsEmitted(lo, hi);
    while i < hi
      invariant lo <= i && (i <= hi || i == lo) && Emitted(Removals(lo, i))
      invariant result == common + EncodeAll(path, Removals(lo, i))
    {
      RemovalStep(path, lo, i);
      result := result[..endIndex] + [RemoveObject(path, ToDecimal(i))] + result[endIndex..];
      i := i + 1;
    }
  }

  /** The last pass: the target's remaining elements. */
  method AppendAdditions(before: seq<Json>, path: string, b: seq<Json>, lo: nat) returns (result: seq<Json>)
    ensures Emitted(Additions(b, lo, |b|)) && result == before + EncodeAll(path, Additions(b, lo, |b|))
  {
    hide Additions, Emitted, EncodeAll, ToDecimal;
    result := before;
    var i := lo;
    AdditionsEmitted(b, lo, |b|);
    NoAdditions(path, b, lo);
    while i < |b|
      invariant lo <= i <= |b| || i == lo
      invariant i <= |b| ==> Emitted(Additions(b, lo, i))
      invariant i <= |b| ==> result == before + EncodeAll(path, Additions(b, lo, i))
      invariant i > |b| ==> result == before
    {
      AdditionStep(path, b, lo, i);
      result := result + [AddObject(path, ToDecimal(i), b[i])];
      i := i + 1;
    }
  }

  lemma NoAdditions(path: string, b: seq<Json>, lo: nat)
    ensures EncodeAll(path, Additions(b, lo, if lo <= |b| then lo else |b|)) == []
    ensures Emitted(Additions(b, lo, if lo <= |b| then lo else |b|))
    ensures lo > |b| ==> Additions(b, lo, |b|) == []
  {
  }

  /** The first pass over two arrays. */
  method DiffElements(source: Json, target: Json, path: string) returns (result: seq<Json>, i: nat)
    requires source.Arr? && target.Arr?
    ensures i == Min(|source.a|, |target.a|) && Emitted(ElementOps(source, target, i))
    ensures result == EncodeAll(path, ElementOps(source, target, i))
    decreases source, 0
  {
    result, i := [], 0;
    while i < |source.a| && i < |target.a|
      invariant i <= |source.a| && i <= |target.a| && Emitted(ElementOps(source, target, i))
      invariant result == EncodeAll(path, ElementOps(source, target, i))
    {
      ElementStep(source, target, path, i);
      var inner := Diff(source.a[i], target.a[i], path + "/" + ToDecimal(i));
      result := result + inner;
      i := i + 1;
    }
  }

  /** The object case: the source's members, then the members only the target has. */
  method DiffObjects(source: Json, target: Json, path: string) returns (result: seq<Json>)
    requires source.Obj? && target.Obj? && !Eq(source, target)
    ensures Emitted(DiffOps(source, target)) && result == EncodeAll(path, DiffOps(source, target))
    decreases source, 1
  {
    result := DiffMembers(source, target, path);
    result := AppendNewMembers(result, path, source.o, target.o, SortedKeys(target.o.Keys));
    EncodeAllAppend(path, MemberOps(source, target, SortedKeys(source.o.Keys)),
                    NewMembers(source.o, target.o, SortedKeys(target.o.Keys)));
  }

  /** The second pass over two objects; `ks` are the target's keys. */
  method AppendNewMembers(before: seq<Json>, path: string, o: map<string, Json>, t: map<string, Json>,
                          ks: seq<string>)
    returns (result: seq<Json>)
    requires forall k | k in ks :: k in t
    ensures Emitted(NewMembers(o, t, ks))
    ensures result == before + EncodeAll(path, NewMembers(o, t, ks))
  {
    hide NewMembers, Emitted, EncodeAll, Escape;
    NewMembersNothing(o, t, path);
    result := before;
    ghost var done: seq<string> := [];
    for i := 0 to |ks|
      invariant done == ks[..i] && forall x | x in done :: x in t
      invariant Emitted(NewMembers(o, t, done))
      invariant result == before + EncodeAll(path, NewMembers(o, t, done))
    {
      var k := ks[i];
      NewMemberStep(o, t, path, done, k);
      result := result + if k in o then [] else [AddObject(path, Escape(k), t[k])];
      done := done + [k];
    }
    assert done == ks;
  }

  lemma NewMembersNothing(o: map<string, Json>, t: map<string, Json>, path: string)
    ensures Emitted(NewMembers(o, t, [])) && EncodeAll(path, NewMembers(o, t, [])) == []
  {
  }

  /** The first pass over two objects. */
  method DiffMembers(source: Json, target: Json, path: string) returns (result: seq<Json>)
    requires source.Obj? && target.Obj?
    ensures Emitted(MemberOps(source, target, SortedKeys(source.o.Keys)))
    ensures result == EncodeAll(path, MemberOps(source, target, SortedKeys(source.o.Keys)))
    decreases source, 0
  {
    hide DiffOps, MemberOps, EncodeAll, Emitted, Eq;
    var ks := SortedKeys(source.o.Keys);
    MemberNothing(source, target, path);
    result := [];
    ghost var done: seq<string> := [];
    for i := 0 to |ks|
      invariant done == ks[..i] && forall x | x in done :: x in source.o
      invariant Emitted(MemberOps(source, target, done))
      invariant result == EncodeAll(path, MemberOps(source, target, done))
    {
      var k := ks[i];
      MemberStep(source, target, path, done, k);
      if k in target.o {
        var inner := Diff(source.o[k], target.o[k], path + "/" + Escape(k));
        result := result + inner;
      } else {
        result := result + [RemoveObject(path, Escape(k))];
      }
      done := done + [k];
    }
    assert done == ks;
  }

  lemma MemberNothing(source: Json, target: Json, path: string)
    requires source.Obj? && target.Obj?
    ensures Emitted(MemberOps(source, target, [])) && EncodeAll(path, MemberOps(source, target, [])) == []
  {
  }
}
