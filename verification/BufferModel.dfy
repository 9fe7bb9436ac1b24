/** The growable buffer of src/include/a3/buffer.h and src/buffer.c by its unread bytes and
    indices, and what its operations amount to. Buffer.dfy refines these functions. */
module BufferModel {
  import opened Str

  /** Unread bytes start at head in storage of cap bytes. */
  datatype View = View(unread: seq<byte>, head: nat, cap: nat, maxCap: nat)

  predicate Valid(v: View) {
    v.head + |v.unread| <= v.cap
  }

  function Tail(v: View): nat {
    v.head + |v.unread|
  }

  /** An empty buffer starts over at the front. */
  function Reset(v: View): View {
    if v.unread == [] then v.(head := 0) else v
  }

  /** What resetting leaves: the bytes and the storage, at the front if there are no bytes and in
      place otherwise. */
  lemma ResetMoves(v: View)
    requires Valid(v)
    ensures Valid(Reset(v)) && Reset(v).unread == v.unread && Reset(v).cap == v.cap && Reset(v).maxCap == v.maxCap
    ensures v.unread == [] ==> Reset(v).head == 0 && Space(v) == v.cap
    ensures v.unread != [] ==> Reset(v).head == v.head && Space(v) == v.cap - v.head - |v.unread|
  {
  }

  /** Room for one contiguous write. */
  function Space(v: View): nat
    requires Valid(v)
  {
    v.cap - Tail(Reset(v))
  }

  datatype Ensured = Ensured(view: View, ok: bool)

  function EnsureCap(v: View, extra: nat): Ensured
    requires Valid(v)
  {
    var r := Reset(v);
    if Space(r) >= extra then Ensured(r, true)
    else if |r.unread| + extra > r.maxCap then Ensured(r, false)
    else if r.cap - |r.unread| >= extra then Ensured(r.(head := 0), true)
    else Ensured(r.(cap := r.maxCap), true)
  }

  /** Growing keeps the unread bytes and never shrinks the storage. It fails exactly if there is
      no contiguous room and the limit is too low; and success means contiguous room exactly if
      the free bytes sufficed before or the old tail leaves the room below the limit. */
  lemma EnsureCapGuarantee(v: View, extra: nat)
    requires Valid(v)
    ensures var e := EnsureCap(v, extra);
            && Valid(e.view) && e.view.unread == v.unread && e.view.maxCap == v.maxCap
            && v.cap <= e.view.cap && (v.cap <= v.maxCap ==> e.view.cap <= v.maxCap)
            && (!e.ok <==> Space(v) < extra && |v.unread| + extra > v.maxCap)
            && (e.ok ==> (Space(e.view) >= extra <==>
                          v.cap - |v.unread| >= extra || Tail(Reset(v)) + extra <= v.maxCap))
            && (e.ok && v.unread == [] ==> Space(e.view) >= extra)
  {
  }

  /** Where the bytes and the storage are afterwards: an empty buffer starts at the front; others
      are moved there exactly if that is needed and enough, and the storage grows to the limit
      exactly if it is not enough. */
  lemma EnsureCapPlaces(v: View, extra: nat)
    requires Valid(v)
    ensures var e := EnsureCap(v, extra);
            var start := if v.unread == [] then 0 else v.head;
            var short := v.cap - start - |v.unread| < extra && |v.unread| + extra <= v.maxCap;
            && e.view.head == (if short && v.cap - |v.unread| >= extra then 0 else start)
            && e.view.cap == (if short && v.cap - |v.unread| < extra then v.maxCap else v.cap)
  {
  }

  /** Five bytes were read, three are unread in eight bytes of storage, the limit is ten: asking
      for seven more succeeds and leaves room for two. */
  lemma EnsureCapCanFallShort(a: byte)
    ensures var v := View([a, a, a], 5, 8, 10);
            Valid(v) && EnsureCap(v, 7).ok && Space(EnsureCap(v, 7).view) == 2
  {
  }

  function EnsureMaxCap(v: View): Ensured
    requires Valid(v)
  {
    if v.cap >= v.maxCap then Ensured(v, true) else EnsureCap(v, v.maxCap - v.cap)
  }

  /** Growing to the limit always reports success, but a buffer with room to spare is not grown:
      the limit is reached exactly if the free bytes are fewer than those missing. */
  lemma EnsureMaxCapReaches(v: View)
    requires Valid(v)
    ensures var e := EnsureMaxCap(v);
            && e.ok && Valid(e.view) && e.view.unread == v.unread && e.view.maxCap == v.maxCap
            && (v.cap >= v.maxCap ==> e.view == v)
            && (e.view.cap >= v.maxCap <==> v.cap >= v.maxCap || v.cap - |v.unread| < v.maxCap - v.cap)
  {
  }

  /** An empty buffer of eight bytes with a limit of ten is not grown to it. */
  lemma EnsureMaxCapCanStop()
    ensures EnsureMaxCap(View([], 0, 8, 10)) == Ensured(View([], 0, 8, 10), true)
  {
  }

  // ----- A bounded queue of bytes

  datatype Op = Put(b: byte) | Take(count: nat)

  function WriteByte(v: View, b: byte): Ensured
    requires Valid(v)
  {
    var e := EnsureCap(v, 1);
    if e.ok then Ensured(e.view.(unread := e.view.unread + [b]), true) else e
  }

  function Read(v: View, count: nat): View
    requires count <= |v.unread|
  {
    Reset(v.(unread := v.unread[count..], head := v.head + count))
  }

  lemma WriteByteAppends(v: View, b: byte)
    requires Valid(v)
    ensures var e := WriteByte(v, b);
            && Valid(e.view) && e.view.unread == (if e.ok then v.unread + [b] else v.unread)
            && e.view.maxCap == v.maxCap && (v.cap <= v.maxCap ==> e.view.cap <= v.maxCap)
            && (!e.ok <==> Space(v) == 0 && |v.unread| >= v.maxCap)
            && (v.cap <= v.maxCap ==> (!e.ok <==> |v.unread| == v.maxCap))
            && e.view.head == EnsureCap(v, 1).view.head && e.view.cap == EnsureCap(v, 1).view.cap
  {
    EnsureCapGuarantee(v, 1);
  }

  lemma ReadDrops(v: View, count: nat)
    requires Valid(v) && count <= |v.unread|
    ensures var r := Read(v, count);
            && Valid(r) && r.unread == v.unread[count..] && r.cap == v.cap && r.maxCap == v.maxCap
            && r.head == if count == |v.unread| then 0 else v.head + count
  {
  }

  /** The queue: bytes come out in the order they went in, at most limit at a time. */
  function QueueRun(queue: seq<byte>, limit: nat, ops: seq<Op>): (seq<byte>, seq<bool>)
    decreases |ops|
  {
    if ops == [] then (queue, [])
    else
      match ops[0]
      case Put(b) =>
        var fits := |queue| < limit;
        var rest := QueueRun(if fits then queue + [b] else queue, limit, ops[1..]);
        (rest.0, [fits] + rest.1)
      case Take(count) =>
        var rest := QueueRun(if count <= |queue| then queue[count..] else queue, limit, ops[1..]);
        (rest.0, rest.1)
  }

  /** The buffer run; reads past the unread bytes are left out. */
  function BufferRun(v: View, ops: seq<Op>): (View, seq<bool>)
    requires Valid(v)
    decreases |ops|
  {
    if ops == [] then (v, [])
    else
      match ops[0]
      case Put(b) =>
        WriteByteAppends(v, b);
        var e := WriteByte(v, b);
        var rest := BufferRun(e.view, ops[1..]);
        (rest.0, [e.ok] + rest.1)
      case Take(count) =>
        var rest := BufferRun(if count <= |v.unread| then Read(v, count) else v, ops[1..]);
        (rest.0, rest.1)
  }

  /** Whatever it does to its indices and storage, the buffer is that bounded queue. */
  lemma {:induction false} BufferIsBoundedQueue(v: View, ops: seq<Op>)
    requires Valid(v) && v.cap <= v.maxCap
    ensures BufferRun(v, ops).0.unread == QueueRun(v.unread, v.maxCap, ops).0
    ensures BufferRun(v, ops).1 == QueueRun(v.unread, v.maxCap, ops).1
    decreases |ops|
  {
    if ops == [] {
    } else {
      match ops[0]
      case Put(b) =>
        WriteByteAppends(v, b);
        BufferIsBoundedQueue(WriteByte(v, b).view, ops[1..]);
      case Take(count) =>
        BufferIsBoundedQueue(if count <= |v.unread| then Read(v, count) else v, ops[1..]);
    }
  }

  // ----- Whole strings

  datatype Written = Written(view: View) | Refused(view: View) | AssertionFails

  function WriteStr(v: View, s: seq<byte>): Written
    requires Valid(v)
  {
    if |s| + |v.unread| > v.maxCap then Refused(v)
    else
      var e := EnsureCap(v, |s|);
      EnsureCapGuarantee(v, |s|);
      if !e.ok then Refused(e.view)
      else if Space(e.view) < |s| then AssertionFails
      else Written(Reset(e.view).(unread := v.unread + s))
  }

  /** A string is appended whole or refused for the limit; the length assertion can only fail
      for a string that the growth branch leaves behind a consumed head. */
  lemma WriteStrAppends(v: View, s: seq<byte>)
    requires Valid(v)
    ensures var w := WriteStr(v, s);
            && (w.Written? ==> Valid(w.view) && w.view.unread == v.unread + s && w.view.maxCap == v.maxCap)
            && (w.Refused? <==> |v.unread| + |s| > v.maxCap)
            && (w.Refused? ==> w.view == v)
            && (w.AssertionFails? <==>
                  && v.unread != [] && |v.unread| + |s| <= v.maxCap
                  && v.cap - |v.unread| < |s| && v.head + |v.unread| + |s| > v.maxCap)
            && (w.Written? ==> w.view.cap == EnsureCap(v, |s|).view.cap && w.view.head == EnsureCap(v, |s|).view.head)
  {
    EnsureCapGuarantee(v, |s|);
  }
}
