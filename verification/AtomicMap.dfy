/**
 The specification of a concurrent map: each call takes effect in one step between its invocation
 and its return. An object is linearizable to this machine when every one of its runs has a run of
 the machine with the same calls, returns and results in the same order.
 */
module AtomicMap {
  import opened Machine

  /** `Get` with `want == false` is a lookup whose caller passed no place for the value. */
  datatype Op<K> = Put(key: K, value: u64) | Get(key: K, want: bool)

  datatype Result = Ok | NoMemory | Found(value: Option<u64>) | NotFound

  datatype Event<K> = Internal | Call(op: Op<K>) | Return(op: Op<K>, res: Result)

  datatype Phase<K> = Idle | Pending(op: Op<K>) | Decided(op: Op<K>, res: Result)

  datatype Spec<K> = Spec(m: map<K, u64>, phase: seq<Phase<K>>)

  /** One atomic operation: `op` applied to `m` may answer `res` and leave `m'`. A Put may run out of
      memory, and then has no effect. */
  ghost predicate Atomic<K>(m: map<K, u64>, op: Op<K>, res: Result, m': map<K, u64>) {
    match op
    case Put(k, v) =>
      || (res == Ok && m' == m[k := v])
      || (res == NoMemory && m' == m)
    case Get(k, want) =>
      && m' == m
      && res == if k !in m then NotFound else Found(if want then Some(m[k]) else None)
  }

  ghost predicate Start<K>(s: Spec<K>, threads: nat) {
    s == Spec(map[], seq(threads, _ => Idle))
  }

  /** A step of thread `i` seen from outside as `e`. */
  ghost predicate Step<K>(s: Spec<K>, s': Spec<K>, i: nat, e: Event<K>) {
    && i < |s.phase|
    && match e
       case Call(op) => s.phase[i] == Idle && s' == s.(phase := s.phase[i := Pending(op)])
       case Return(op, res) => s.phase[i] == Decided(op, res) && s' == s.(phase := s.phase[i := Idle])
       case Internal =>
         || s' == s
         || (&& s.phase[i].Pending? && |s'.phase| == |s.phase| && s'.phase[i].Decided?
             && s'.phase == s.phase[i := Decided(s.phase[i].op, s'.phase[i].res)]
             && Atomic(s.m, s.phase[i].op, s'.phase[i].res, s'.m))
  }

  ghost predicate Run<K>(specs: seq<Spec<K>>, threads: nat, labels: seq<(nat, Event<K>)>) {
    && |specs| == |labels| + 1 && Start(specs[0], threads)
    && forall j :: 0 <= j < |labels| ==> Step(specs[j], specs[j + 1], labels[j].0, labels[j].1)
  }

  /** In this step a Put of `k` by thread `i` takes effect. */
  ghost predicate PutTakes<K>(before: Phase<K>, after: Phase<K>, k: K) {
    before.Pending? && before.op.Put? && before.op.key == k && after == Decided(before.op, Ok)
  }

  ghost predicate PutAt<K>(s: Spec<K>, s': Spec<K>, i: nat, k: K) {
    i < |s.phase| && i < |s'.phase| && PutTakes(s.phase[i], s'.phase[i], k)
  }

  lemma StepPuts<K>(s: Spec<K>, s': Spec<K>, i: nat, e: Event<K>, k: K)
    requires Step(s, s', i, e)
    ensures PutAt(s, s', i, k) ==> k in s'.m && s'.m[k] == s.phase[i].op.value
    ensures !PutAt(s, s', i, k) ==> (k in s'.m <==> k in s.m) && (k in s.m ==> s'.m[k] == s.m[k])
  {
  }

  /** At every moment of a run, a key's value is that of the last Put of it that took effect; a key no Put
      of which has taken effect is absent. */
  lemma {:induction false} MapIsLastPut<K(!new)>(specs: seq<Spec<K>>, threads: nat, labels: seq<(nat, Event<K>)>,
                                           j: nat, k: K) returns (q: nat)
    requires Run(specs, threads, labels) && j < |specs|
    ensures k !in specs[j].m ==> forall r :: 0 <= r < j ==> !PutAt(specs[r], specs[r + 1], labels[r].0, k)
    ensures k in specs[j].m ==>
      && q < j && PutAt(specs[q], specs[q + 1], labels[q].0, k) && specs[j].m[k] == specs[q].phase[labels[q].0].op.value
      && forall r :: q < r < j ==> !PutAt(specs[r], specs[r + 1], labels[r].0, k)
    decreases j
  {
    hide Step, PutAt;
    q := 0;
    if j > 0 {
      q := MapIsLastPut(specs, threads, labels, j - 1, k);
      StepPuts(specs[j - 1], specs[j - 1 + 1], labels[j - 1].0, labels[j - 1].1, k);
      if PutAt(specs[j - 1], specs[j - 1 + 1], labels[j - 1].0, k) { q := j - 1; }
    }
  }
}
