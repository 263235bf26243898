/**
Gauss-Jordan elimination on dense systems: the specification that the sparse
in-place elimination of `Decoder.gaussian_elimination` is proved to refine.

A system pairs each coefficient row with an optional payload. Rows received in
the clear have no payload, and a row operation skips the payload work when
either side has none, exactly as the sparse code does.
 */
module Elimination {
  import opened Basics
  import opened Field
  import opened Options
  import opened LinearAlgebra

  datatype System = System(rows: Mat, payloads: seq<Option<Vec>>)

  ghost predicate WellFormed(s: System, k: nat) {
    |s.payloads| == |s.rows| && IsMat(s.rows, |s.rows|, k)
  }

  // ----- Elementary row operations -----

  datatype RowOp =
    | Swap(i: nat, j: nat)
    | Scale(row: nat, factor: Byte)
    | AddScaled(target: nat, source: nat, factor: Byte)

  predicate ValidOp(n: nat, op: RowOp) {
    match op
    case Swap(i, j) => i < n && j < n
    case Scale(row, factor) => row < n && factor != 0
    case AddScaled(target, source, _) => target < n && source < n && target != source
  }

  function SwapAt<T>(s: seq<T>, i: nat, j: nat): seq<T>
    requires i < |s| && j < |s|
  {
    s[i := s[j]][j := s[i]]
  }

  function ScalePayload(p: Option<Vec>, factor: Byte): Option<Vec> {
    if p.Some? then Some(VScale(factor, p.value)) else None
  }

  /** Payload of the target row after adding `factor` times the source row. */
  function AddPayload(target: Option<Vec>, source: Option<Vec>, factor: Byte): Option<Vec> {
    if target.Some? && source.Some? then Some(AddBlock(target.value, source.value, factor)) else target
  }

  function AddBlock(t: Vec, s: Vec, factor: Byte): (w: Vec)
    ensures |w| == |t|
  {
    seq(|t|, i requires 0 <= i < |t| => if i < |s| then Add(Mul(factor, s[i]), t[i]) else t[i])
  }

  function Apply(s: System, op: RowOp): System
    requires |s.payloads| == |s.rows| && ValidOp(|s.rows|, op)
    requires op.AddScaled? ==> |s.rows[op.target]| == |s.rows[op.source]|
  {
    match op
    case Swap(i, j) => System(SwapAt(s.rows, i, j), SwapAt(s.payloads, i, j))
    case Scale(row, factor) =>
      System(s.rows[row := VScale(factor, s.rows[row])],
             s.payloads[row := ScalePayload(s.payloads[row], factor)])
    case AddScaled(target, source, factor) =>
      System(s.rows[target := VAdd(s.rows[target], VScale(factor, s.rows[source]))],
             s.payloads[target := AddPayload(s.payloads[target], s.payloads[source], factor)])
  }

  ghost predicate ValidOps(n: nat, ops: seq<RowOp>) {
    forall i :: 0 <= i < |ops| ==> ValidOp(n, ops[i])
  }

  ghost function Run(s: System, k: nat, ops: seq<RowOp>): (t: System)
    requires WellFormed(s, k) && ValidOps(|s.rows|, ops)
    ensures WellFormed(t, k) && |t.rows| == |s.rows|
    decreases |ops|
  {
    if |ops| == 0 then s else Run(Apply(s, ops[0]), k, ops[1..])
  }

  /** `t` arises from `s` by a sequence of elementary row operations. */
  ghost predicate Reaches(s: System, t: System, k: nat)
    requires WellFormed(s, k)
  {
    exists ops: seq<RowOp> :: ValidOps(|s.rows|, ops) && Run(s, k, ops) == t
  }

  lemma ReachesSelf(s: System, k: nat)
    requires WellFormed(s, k)
    ensures Reaches(s, s, k)
  {
    assert Run(s, k, []) == s;
  }

  lemma ReachesStep(s: System, k: nat, op: RowOp, t: System)
    requires WellFormed(s, k) && ValidOp(|s.rows|, op)
    requires Reaches(Apply(s, op), t, k)
    ensures Reaches(s, t, k)
  {
    var ops :| ValidOps(|s.rows|, ops) && Run(Apply(s, op), k, ops) == t;
    var all := [op] + ops;
    assert all[1..] == ops;
    assert Run(s, k, all) == t;
  }

  // ----- What every row operation preserves -----

  lemma KernelStep(s: System, k: nat, op: RowOp, v: Vec)
    requires WellFormed(s, k) && ValidOp(|s.rows|, op) && |v| == k
    ensures InKernel(Apply(s, op).rows, v) <==> InKernel(s.rows, v)
  {
    hide Dot;
    hide Add;
    hide Mul;
    match op
    case Swap(i, j) =>
      var t := Apply(s, op).rows;
      assert t[i] == s.rows[j] && t[j] == s.rows[i];
      assert forall r :: 0 <= r < |t| ==> r == i || r == j || t[r] == s.rows[r];
    case Scale(row, factor) =>
      DotScaleLeft(factor, s.rows[row], v);
      NoZeroDivisors(factor, Dot(s.rows[row], v));
      KernelByRow(s.rows, Apply(s, op).rows, row, v);
    case AddScaled(target, source, factor) =>
      var t := Apply(s, op).rows;
      DotAddLeft(s.rows[target], VScale(factor, s.rows[source]), v);
      DotScaleLeft(factor, s.rows[source], v);
      MulZero(factor);
      AddZero(Dot(s.rows[target], v));
      assert t[source] == s.rows[source];
      if InKernel(s.rows, v) || InKernel(t, v) {
        assert Dot(s.rows[source], v) == 0;
        KernelByRow(s.rows, t, target, v);
      }
  }

  lemma KernelByRow(a: Mat, b: Mat, row: nat, v: Vec)
    requires row < |a| == |b| && IsMat(a, |a|, |v|) && IsMat(b, |b|, |v|)
    requires forall r :: 0 <= r < |a| && r != row ==> a[r] == b[r]
    requires Dot(a[row], v) == 0 <==> Dot(b[row], v) == 0
    ensures InKernel(a, v) <==> InKernel(b, v)
  {
    hide Dot;
  }

  lemma {:induction false} KernelRun(s: System, k: nat, ops: seq<RowOp>, v: Vec)
    requires WellFormed(s, k) && ValidOps(|s.rows|, ops) && |v| == k
    ensures InKernel(Run(s, k, ops).rows, v) <==> InKernel(s.rows, v)
    decreases |ops|
  {
    hide Apply;
    hide InKernel;
    if |ops| > 0 {
      KernelStep(s, k, ops[0], v);
      ApplyShape(s, k, ops[0]);
      KernelRun(Apply(s, ops[0]), k, ops[1..], v);
    }
  }

  lemma ApplyShape(s: System, k: nat, op: RowOp)
    requires WellFormed(s, k) && ValidOp(|s.rows|, op)
    ensures WellFormed(Apply(s, op), k) && |Apply(s, op).rows| == |s.rows|
  {
  }

  /** Elimination neither creates nor destroys kernel vectors. */
  lemma KernelPreserved(s: System, t: System, k: nat)
    requires WellFormed(s, k) && Reaches(s, t, k)
    ensures WellFormed(t, k) && |t.rows| == |s.rows|
    ensures TrivialKernel(t.rows, k) <==> TrivialKernel(s.rows, k)
  {
    hide Run;
    hide InKernel;
    var ops :| ValidOps(|s.rows|, ops) && Run(s, k, ops) == t;
    forall v: Vec | |v| == k
      ensures InKernel(t.rows, v) <==> InKernel(s.rows, v)
    {
      KernelRun(s, k, ops, v);
    }
  }

  // ----- Solutions -----

  /** Every payload present is a block of `width` bytes. */
  ghost predicate PayloadWidth(s: System, width: nat) {
    forall r :: 0 <= r < |s.payloads| && s.payloads[r].Some? ==> |s.payloads[r].value| == width
  }

  ghost predicate AllCarried(s: System) {
    forall r :: 0 <= r < |s.payloads| ==> s.payloads[r].Some?
  }

  ghost predicate RowSolved(row: Vec, payload: Option<Vec>, x: Mat, width: nat)
    requires IsMat(x, |row|, width)
  {
    payload.Some? ==> payload.value == Combine(row, x, width)
  }

  /** The blocks `x` explain every payload of the system. */
  ghost predicate Solves(s: System, x: Mat, k: nat, width: nat)
    requires WellFormed(s, k) && IsMat(x, k, width)
  {
    forall r :: 0 <= r < |s.rows| ==> RowSolved(s.rows[r], s.payloads[r], x, width)
  }

  lemma ScaleInjective(c: Byte, u: Vec, v: Vec)
    requires c != 0 && |u| == |v|
    ensures VScale(c, u) == VScale(c, v) <==> u == v
  {
    hide Mul;
    if VScale(c, u) == VScale(c, v) {
      forall i | 0 <= i < |u|
        ensures u[i] == v[i]
      {
        assert VScale(c, u)[i] == VScale(c, v)[i];
        ScalarCancel(c, u[i], v[i]);
      }
    }
  }

  lemma ScalarCancel(c: Byte, a: Byte, b: Byte)
    requires c != 0 && Mul(c, a) == Mul(c, b)
    ensures a == b
  {
    hide *;
    MulInv(c);
    MulAssoc(Inv(c), c, a);
    MulAssoc(Inv(c), c, b);
    MulOne(a);
    MulOne(b);
  }

  lemma AddBlockIsVAdd(t: Vec, s: Vec, factor: Byte)
    requires |t| == |s|
    ensures AddBlock(t, s, factor) == VAdd(t, VScale(factor, s))
  {
    hide Add;
    hide Mul;
    forall i | 0 <= i < |t|
      ensures AddBlock(t, s, factor)[i] == VAdd(t, VScale(factor, s))[i]
    {
      AddComm(t[i], Mul(factor, s[i]));
    }
  }

  lemma VAddCancel(u: Vec, v: Vec, w: Vec)
    requires |u| == |v| == |w|
    ensures VAdd(u, w) == VAdd(v, w) <==> u == v
  {
    hide Add;
    if VAdd(u, w) == VAdd(v, w) {
      forall i | 0 <= i < |u|
        ensures u[i] == v[i]
      {
        assert VAdd(u, w)[i] == VAdd(v, w)[i];
        AddComm(u[i], w[i]);
        AddComm(v[i], w[i]);
        AddCancel(w[i], u[i]);
        AddCancel(w[i], v[i]);
      }
    }
  }

  lemma ScaleRowSolved(row: Vec, payload: Option<Vec>, factor: Byte, x: Mat, width: nat)
    requires IsMat(x, |row|, width) && factor != 0
    requires payload.Some? ==> |payload.value| == width
    ensures RowSolved(VScale(factor, row), ScalePayload(payload, factor), x, width)
       <==> RowSolved(row, payload, x, width)
  {
    hide Combine;
    CombineScale(factor, row, x, width);
    if payload.Some? {
      ScaleInjective(factor, payload.value, Combine(row, x, width));
    }
  }

  lemma AddRowSolved(t: Vec, s: Vec, pt: Vec, ps: Vec, factor: Byte, x: Mat, width: nat)
    requires |t| == |s| && IsMat(x, |t|, width)
    requires |pt| == |ps| == width && ps == Combine(s, x, width)
    ensures RowSolved(VAdd(t, VScale(factor, s)), AddPayload(Some(pt), Some(ps), factor), x, width)
       <==> RowSolved(t, Some(pt), x, width)
  {
    hide Combine;
    hide VAdd;
    hide VScale;
    CombineScale(factor, s, x, width);
    CombineAdd(t, VScale(factor, s), x, width);
    AddBlockIsVAdd(pt, ps, factor);
    VAddCancel(pt, Combine(t, x, width), VScale(factor, ps));
  }

  lemma SolutionStep(s: System, k: nat, op: RowOp, x: Mat, width: nat)
    requires WellFormed(s, k) && ValidOp(|s.rows|, op) && IsMat(x, k, width)
    requires AllCarried(s) && PayloadWidth(s, width)
    ensures AllCarried(Apply(s, op)) && PayloadWidth(Apply(s, op), width)
    ensures Solves(Apply(s, op), x, k, width) <==> Solves(s, x, k, width)
  {
    hide VAdd;
    hide VScale;
    hide RowSolved;
    hide AddBlock;
    var t := Apply(s, op);
    match op
    case Swap(i, j) =>
      assert t.rows[i] == s.rows[j] && t.rows[j] == s.rows[i];
      assert t.payloads[i] == s.payloads[j] && t.payloads[j] == s.payloads[i];
      assert forall r :: 0 <= r < |t.rows| ==>
        r == i || r == j || (t.rows[r] == s.rows[r] && t.payloads[r] == s.payloads[r]);
    case Scale(row, factor) =>
      ScaleRowSolved(s.rows[row], s.payloads[row], factor, x, width);
      SolvesByRow(s, t, row, x, k, width);
    case AddScaled(target, source, factor) =>
      assert t.rows[source] == s.rows[source] && t.payloads[source] == s.payloads[source];
      if Solves(s, x, k, width) || Solves(t, x, k, width) {
        assert RowSolved(s.rows[source], s.payloads[source], x, width);
        SourceSolved(s.rows[source], s.payloads[source], x, width);
        AddRowSolved(s.rows[target], s.rows[source], s.payloads[target].value, s.payloads[source].value, factor, x, width);
        SolvesByRow(s, t, target, x, k, width);
      }
  }

  lemma SourceSolved(row: Vec, payload: Option<Vec>, x: Mat, width: nat)
    requires IsMat(x, |row|, width) && RowSolved(row, payload, x, width) && payload.Some?
    ensures payload.value == Combine(row, x, width)
  {
  }

  lemma SolvesByRow(s: System, t: System, row: nat, x: Mat, k: nat, width: nat)
    requires WellFormed(s, k) && WellFormed(t, k) && IsMat(x, k, width) && row < |s.rows| == |t.rows|
    requires forall r :: 0 <= r < |s.rows| && r != row ==> s.rows[r] == t.rows[r] && s.payloads[r] == t.payloads[r]
    requires RowSolved(t.rows[row], t.payloads[row], x, width) <==> RowSolved(s.rows[row], s.payloads[row], x, width)
    ensures Solves(t, x, k, width) <==> Solves(s, x, k, width)
  {
    hide RowSolved;
  }

  lemma {:induction false} SolutionRun(s: System, k: nat, ops: seq<RowOp>, x: Mat, width: nat)
    requires WellFormed(s, k) && ValidOps(|s.rows|, ops) && IsMat(x, k, width)
    requires AllCarried(s) && PayloadWidth(s, width)
    ensures
      var t := Run(s, k, ops);
      && AllCarried(t) && PayloadWidth(t, width)
      && (Solves(t, x, k, width) <==> Solves(s, x, k, width))
    decreases |ops|
  {
    hide Apply;
    hide Solves;
    if |ops| > 0 {
      SolutionStep(s, k, ops[0], x, width);
      ApplyShape(s, k, ops[0]);
      SolutionRun(Apply(s, ops[0]), k, ops[1..], x, width);
    }
  }

  /** When every row has a payload, row operations keep the set of solutions. */
  lemma SolutionsPreserved(s: System, t: System, k: nat, x: Mat, width: nat)
    requires WellFormed(s, k) && Reaches(s, t, k) && IsMat(x, k, width)
    requires AllCarried(s) && PayloadWidth(s, width)
    ensures WellFormed(t, k) && AllCarried(t) && PayloadWidth(t, width) && |t.rows| == |s.rows|
    ensures Solves(t, x, k, width) <==> Solves(s, x, k, width)
  {
    hide Run;
    hide Solves;
    var ops :| ValidOps(|s.rows|, ops) && Run(s, k, ops) == t;
    SolutionRun(s, k, ops, x, width);
  }

  // ----- Systems in which some rows have no payload -----

  // ----- Payloads are combinations of payloads -----

  /** The payload blocks, with zeros where there is none. */
  function PayloadBlocks(payloads: seq<Option<Vec>>, width: nat): (blocks: Mat)
    ensures |blocks| == |payloads|
  {
    seq(|payloads|, r requires 0 <= r < |payloads| => if payloads[r].Some? then payloads[r].value else Zeros(width))
  }

  ghost predicate InSpan(v: Vec, blocks: Mat, width: nat)
    requires IsMat(blocks, |blocks|, width)
  {
    exists c: Vec :: |c| == |blocks| && v == Combine(c, blocks, width)
  }

  ghost predicate AllInSpan(payloads: seq<Option<Vec>>, blocks: Mat, width: nat)
    requires IsMat(blocks, |blocks|, width)
  {
    forall r :: 0 <= r < |payloads| && payloads[r].Some? ==> InSpan(payloads[r].value, blocks, width)
  }

  lemma SpanScale(factor: Byte, v: Vec, blocks: Mat, width: nat)
    requires IsMat(blocks, |blocks|, width) && InSpan(v, blocks, width)
    ensures InSpan(VScale(factor, v), blocks, width)
  {
    hide Combine;
    var c: Vec :| |c| == |blocks| && v == Combine(c, blocks, width);
    CombineScale(factor, c, blocks, width);
    assert |VScale(factor, c)| == |blocks|;
  }

  lemma SpanAdd(u: Vec, v: Vec, blocks: Mat, width: nat)
    requires IsMat(blocks, |blocks|, width) && InSpan(u, blocks, width) && InSpan(v, blocks, width)
    ensures |u| == |v| == width && InSpan(VAdd(u, v), blocks, width)
  {
    hide Combine;
    var c: Vec :| |c| == |blocks| && u == Combine(c, blocks, width);
    var d: Vec :| |d| == |blocks| && v == Combine(d, blocks, width);
    CombineAdd(c, d, blocks, width);
    assert |VAdd(c, d)| == |blocks|;
  }

  lemma SpanAddBlock(t: Vec, s: Vec, factor: Byte, blocks: Mat, width: nat)
    requires IsMat(blocks, |blocks|, width) && InSpan(t, blocks, width) && InSpan(s, blocks, width)
    ensures InSpan(AddBlock(t, s, factor), blocks, width)
  {
    hide InSpan;
    SpanScale(factor, s, blocks, width);
    SpanAdd(t, VScale(factor, s), blocks, width);
    SpanAdd(t, s, blocks, width);
    AddBlockIsVAdd(t, s, factor);
  }

  lemma SpanStep(s: System, k: nat, op: RowOp, blocks: Mat, width: nat)
    requires WellFormed(s, k) && ValidOp(|s.rows|, op) && IsMat(blocks, |blocks|, width)
    requires AllInSpan(s.payloads, blocks, width)
    ensures AllInSpan(Apply(s, op).payloads, blocks, width)
  {
    hide InSpan, AddBlock;
    match op
    case Swap(i, j) =>
    case Scale(row, factor) =>
      if s.payloads[row].Some? {
        SpanScale(factor, s.payloads[row].value, blocks, width);
      }
    case AddScaled(target, source, factor) =>
      if s.payloads[target].Some? && s.payloads[source].Some? {
        SpanAddBlock(s.payloads[target].value, s.payloads[source].value, factor, blocks, width);
      }
  }

  lemma {:induction false} SpanRun(s: System, k: nat, ops: seq<RowOp>, blocks: Mat, width: nat)
    requires WellFormed(s, k) && ValidOps(|s.rows|, ops) && IsMat(blocks, |blocks|, width)
    requires AllInSpan(s.payloads, blocks, width)
    ensures AllInSpan(Run(s, k, ops).payloads, blocks, width)
    decreases |ops|
  {
    hide Apply, AllInSpan;
    if |ops| > 0 {
      ApplyShape(s, k, ops[0]);
      SpanStep(s, k, ops[0], blocks, width);
      SpanRun(Apply(s, ops[0]), k, ops[1..], blocks, width);
    }
  }

  /** Whatever elimination leaves as a payload is a combination of the payloads it started from. */
  lemma PayloadsStayInSpan(s: System, t: System, k: nat, width: nat)
    requires WellFormed(s, k) && Reaches(s, t, k) && PayloadWidth(s, width)
    ensures
      var blocks := PayloadBlocks(s.payloads, width);
      IsMat(blocks, |blocks|, width) && AllInSpan(t.payloads, blocks, width)
  {
    hide Run, Combine;
    var blocks := PayloadBlocks(s.payloads, width);
    forall r | 0 <= r < |s.payloads| && s.payloads[r].Some?
      ensures InSpan(s.payloads[r].value, blocks, width)
    {
      CombineUnit(r, blocks, width);
      assert |Unit(|blocks|, r)| == |blocks|;
    }
    var ops :| ValidOps(|s.rows|, ops) && Run(s, k, ops) == t;
    SpanRun(s, k, ops, blocks, width);
  }

  ghost predicate QuietPayload(p: Option<Vec>, width: nat) {
    p.Some? ==> p.value == Zeros(width)
  }

  /** No payload holds a nonzero byte. */
  ghost predicate Quiet(s: System, width: nat) {
    forall r :: 0 <= r < |s.payloads| ==> QuietPayload(s.payloads[r], width)
  }

  ghost function Carried(payloads: seq<Option<Vec>>): set<nat> {
    set r: nat | r < |payloads| && payloads[r].Some?
  }

  lemma SwapCarried(p: seq<Option<Vec>>, i: nat, j: nat)
    requires i < |p| && j < |p|
    ensures |Carried(SwapAt(p, i, j))| == |Carried(p)|
  {
    var q := SwapAt(p, i, j);
    assert q[i] == p[j] && q[j] == p[i];
    assert forall r :: 0 <= r < |p| && r != i && r != j ==> q[r] == p[r];
    if p[i].Some? == p[j].Some? {
      assert Carried(q) == Carried(p);
    } else if p[i].Some? {
      MovedMark(p, q, i, j);
    } else {
      MovedMark(p, q, j, i);
    }
  }

  lemma MovedMark(p: seq<Option<Vec>>, q: seq<Option<Vec>>, i: nat, j: nat)
    requires i < |p| == |q| && j < |p| && p[i].Some? && p[j].None? && q[i].None? && q[j].Some?
    requires forall r :: 0 <= r < |p| && r != i && r != j ==> q[r] == p[r]
    ensures |Carried(q)| == |Carried(p)|
  {
    hide Carried;
    MarksElsewhere(p, q, i, j);
    var common := Carried(p) - {i};
    assert |Carried(p)| == |common| + 1 && |Carried(q)| == |common| + 1;
  }

  lemma MarksElsewhere(p: seq<Option<Vec>>, q: seq<Option<Vec>>, i: nat, j: nat)
    requires i < |p| == |q| && j < |p| && p[i].Some? && p[j].None? && q[i].None? && q[j].Some?
    requires forall r :: 0 <= r < |p| && r != i && r != j ==> q[r] == p[r]
    ensures
      var common := Carried(p) - {i};
      i !in common && j !in common && Carried(p) == common + {i} && Carried(q) == common + {j}
  {
  }

  lemma ScaleQuiet(p: Option<Vec>, factor: Byte, width: nat)
    requires factor != 0 && (p.Some? ==> |p.value| == width)
    ensures QuietPayload(ScalePayload(p, factor), width) <==> QuietPayload(p, width)
  {
    hide Mul;
    if p.Some? {
      MulZero(factor);
      assert VScale(factor, Zeros(width)) == Zeros(width);
      ScaleInjective(factor, p.value, Zeros(width));
    }
  }

  lemma AddQuiet(t: Option<Vec>, s: Option<Vec>, factor: Byte, width: nat)
    requires t.Some? ==> |t.value| == width
    requires QuietPayload(s, width)
    ensures AddPayload(t, s, factor) == t
  {
    hide Mul;
    hide Add;
    if t.Some? && s.Some? {
      MulZero(factor);
      forall i | 0 <= i < width
        ensures AddBlock(t.value, s.value, factor)[i] == t.value[i]
      {
        AddZero(t.value[i]);
      }
      assert AddBlock(t.value, s.value, factor) == t.value;
    }
  }

  lemma QuietByRow(p: seq<Option<Vec>>, q: seq<Option<Vec>>, row: nat, width: nat)
    requires row < |p| == |q| && forall r :: 0 <= r < |p| && r != row ==> p[r] == q[r]
    requires QuietPayload(p[row], width) <==> QuietPayload(q[row], width)
    ensures (forall r :: 0 <= r < |p| ==> QuietPayload(p[r], width))
       <==> (forall r :: 0 <= r < |q| ==> QuietPayload(q[r], width))
  {
    hide QuietPayload;
  }

  lemma QuietSwap(s: System, k: nat, i: nat, j: nat, width: nat)
    requires WellFormed(s, k) && i < |s.rows| && j < |s.rows| && PayloadWidth(s, width)
    ensures PayloadWidth(Apply(s, Swap(i, j)), width)
    ensures Quiet(Apply(s, Swap(i, j)), width) <==> Quiet(s, width)
  {
    hide QuietPayload;
    var t := Apply(s, Swap(i, j));
    assert t.payloads[i] == s.payloads[j] && t.payloads[j] == s.payloads[i];
    assert forall r :: 0 <= r < |t.payloads| ==> r == i || r == j || t.payloads[r] == s.payloads[r];
  }

  lemma QuietScale(s: System, k: nat, row: nat, factor: Byte, width: nat)
    requires WellFormed(s, k) && row < |s.rows| && factor != 0 && PayloadWidth(s, width)
    ensures PayloadWidth(Apply(s, Scale(row, factor)), width)
    ensures Quiet(Apply(s, Scale(row, factor)), width) <==> Quiet(s, width)
  {
    hide QuietPayload;
    hide VScale;
    ScaleQuiet(s.payloads[row], factor, width);
    QuietByRow(s.payloads, Apply(s, Scale(row, factor)).payloads, row, width);
  }

  lemma QuietAdd(s: System, k: nat, target: nat, source: nat, factor: Byte, width: nat)
    requires WellFormed(s, k) && target < |s.rows| && source < |s.rows| && target != source && PayloadWidth(s, width)
    ensures PayloadWidth(Apply(s, AddScaled(target, source, factor)), width)
    ensures Quiet(Apply(s, AddScaled(target, source, factor)), width) <==> Quiet(s, width)
  {
    hide QuietPayload;
    hide VAdd;
    hide VScale;
    hide AddBlock;
    var t := Apply(s, AddScaled(target, source, factor));
    assert t.payloads[source] == s.payloads[source];
    if Quiet(s, width) || Quiet(t, width) {
      assert QuietPayload(s.payloads[source], width);
      AddQuiet(s.payloads[target], s.payloads[source], factor, width);
      assert t.payloads == s.payloads;
    }
  }

  /** A row operation neither silences nor excites the payloads, and moves no payload away. */
  lemma QuietStep(s: System, k: nat, op: RowOp, width: nat)
    requires WellFormed(s, k) && ValidOp(|s.rows|, op) && PayloadWidth(s, width)
    ensures PayloadWidth(Apply(s, op), width)
    ensures Quiet(Apply(s, op), width) <==> Quiet(s, width)
    ensures |Carried(Apply(s, op).payloads)| == |Carried(s.payloads)|
  {
    hide Quiet;
    hide PayloadWidth;
    match op
    case Swap(i, j) =>
      QuietSwap(s, k, i, j, width);
      SwapCarried(s.payloads, i, j);
    case Scale(row, factor) =>
      QuietScale(s, k, row, factor, width);
      assert Carried(Apply(s, op).payloads) == Carried(s.payloads);
    case AddScaled(target, source, factor) =>
      QuietAdd(s, k, target, source, factor, width);
      assert Carried(Apply(s, op).payloads) == Carried(s.payloads);
  }

  lemma {:induction false} QuietRun(s: System, k: nat, ops: seq<RowOp>, width: nat)
    requires WellFormed(s, k) && ValidOps(|s.rows|, ops) && PayloadWidth(s, width)
    ensures
      var t := Run(s, k, ops);
      && PayloadWidth(t, width)
      && (Quiet(t, width) <==> Quiet(s, width))
      && |Carried(t.payloads)| == |Carried(s.payloads)|
    decreases |ops|
  {
    hide Apply;
    hide Quiet;
    if |ops| > 0 {
      QuietStep(s, k, ops[0], width);
      ApplyShape(s, k, ops[0]);
      QuietRun(Apply(s, ops[0]), k, ops[1..], width);
    }
  }

  /**
  Payloads that are not all zero cannot be eliminated into the right place when
  rows without a payload take part: among any set of slots as large as the set
  of payloads, one ends without a payload or with a nonzero one.
   */
  lemma SomeSlotSpoiled(s: System, t: System, k: nat, missing: set<nat>, width: nat)
    requires WellFormed(s, k) && Reaches(s, t, k) && PayloadWidth(s, width)
    requires forall i :: i in missing ==> i < |s.rows|
    requires |missing| == |Carried(s.payloads)| && !Quiet(s, width)
    ensures |t.payloads| == |s.payloads| && PayloadWidth(t, width)
    ensures exists i :: i in missing && t.payloads[i] != Some(Zeros(width))
  {
    hide Run;
    var ops :| ValidOps(|s.rows|, ops) && Run(s, k, ops) == t;
    QuietRun(s, k, ops, width);
    var r :| 0 <= r < |t.payloads| && !QuietPayload(t.payloads[r], width);
    var carried := Carried(t.payloads);
    if i :| i in missing && i !in carried {
      assert t.payloads[i] == None;
    } else {
      assert missing <= carried;
      SubsetOfSameSize(missing, carried);
      assert r in missing;
    }
  }
}
