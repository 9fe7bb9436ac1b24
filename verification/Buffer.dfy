/** The growable byte buffer of src/include/a3/buffer.h and src/buffer.c over its storage. */
module Buffer {
  import opened Bits
  import opened Str
  import opened Wrappers
  import BM = BufferModel
  import T = Tokens

  const NUM_SIZE: nat := 20  // the scratch space of a3_buf_write_num

  lemma FirstOfRest(s: seq<byte>, k: nat, rest: seq<byte>)
    requires k < |s| && rest == s[k..]
    ensures rest[0] == s[k] && rest[1..] == s[k + 1..]
  {
  }

  lemma SameSlice(s: seq<byte>, t: seq<byte>, lo: nat, hi: nat)
    requires lo <= hi <= |s| == |t| && forall i | lo <= i < hi :: s[i] == t[i]
    ensures s[lo..hi] == t[lo..hi]
  {
  }

  function Zeroed(s: seq<byte>, lo: nat, hi: nat): (z: seq<byte>)
    ensures |z| == |s| && forall i | 0 <= i < |s| :: z[i] == if lo <= i < hi then 0 else s[i]
    ensures lo == hi ==> z == s
  {
    seq(|s|, i requires 0 <= i < |s| => if lo <= i < hi then 0 else s[i])
  }

  class Buffer {
    var data: array<byte>
    var tail: nat
    var head: nat
    const maxCap: nat

    ghost predicate Valid()
      reads this
    {
      head <= tail <= data.Length
    }

    ghost function Unread(): seq<byte>
      requires Valid()
      reads this, data
    {
      data[head..tail]
    }

    ghost function View(): (v: BM.View)
      requires Valid()
      reads this, data
    {
      BM.View(Unread(), head, data.Length, maxCap)
    }

    constructor (cap: nat, maxCap: nat)
      ensures Valid() && fresh(data) && View() == BM.View([], 0, cap, maxCap)
    {
      data := new byte[cap](_ => 0);
      head, tail, this.maxCap := 0, 0, maxCap;
    }

    method ResetIfEmpty() returns (r: bool)
      requires Valid()
      modifies this`head, this`tail
      ensures Valid() && View() == BM.Reset(old(View())) && r == (Unread() == [])
      ensures if old(head) == old(tail) then head == tail == 0 else head == old(head) && tail == old(tail)
    {
      if head != tail {
        return false;
      }
      head, tail := 0, 0;
      return true;
    }

    method Space() returns (n: nat)
      requires Valid()
      modifies this`head, this`tail
      ensures Valid() && View() == BM.Reset(old(View())) && n == BM.Space(old(View())) == data.Length - tail
    {
      var _ := ResetIfEmpty();
      return data.Length - tail;
    }

    /** Move the unread bytes to the front; the library asserts that they are not there yet. */
    method Compact()
      requires Valid() && head != 0
      modifies this`head, this`tail, data
      ensures Valid() && View() == old(View()).(head := 0)
    {
      var len := tail - head;
      for i := 0 to len
        modifies data
        invariant forall k | 0 <= k < i :: data[k] == old(data[head + k])
        invariant forall k | i <= k < data.Length :: data[k] == old(data[k])
      {
        data[i] := data[head + i];
      }
      assert data[..len] == old(data[head..tail]);
      tail := tail - head;
      head := 0;
    }

    /** The storage with a new length; what is new in it is arbitrary. */
    method Reallocate(newLen: nat)
      requires Valid() && tail <= newLen
      modifies this`data
      ensures Valid() && fresh(data) && data.Length == newLen
      ensures View() == old(View()).(cap := newLen)
    {
      var grown := new byte[newLen];
      for i := 0 to tail
        modifies grown
        invariant grown[..i] == data[..i]
      {
        grown[i] := data[i];
      }
      assert grown[..tail] == data[..tail];
      assert grown[head..tail] == grown[..tail][head..] && data[head..tail] == data[..tail][head..];
      data := grown;
    }

    method EnsureCap(extra: nat) returns (ok: bool)
      requires Valid()
      modifies this`head, this`tail, this`data, data
      ensures Valid() && (data == old(data) || fresh(data))
      ensures View() == BM.EnsureCap(old(View()), extra).view && ok == BM.EnsureCap(old(View()), extra).ok
    {
      var space := Space();
      if space >= extra {
        return true;
      }
      var len := tail - head;
      if len + extra > maxCap {
        return false;
      }
      if data.Length - len >= extra {
        Compact();
        return true;
      }
      var newCap := if data.Length > 8 then data.Length else 8;
      newCap := if newCap > maxCap then newCap else maxCap;
      while newCap < data.Length + extra
        invariant newCap >= maxCap && newCap > 0
      {
        newCap := newCap * 2;
      }
      Reallocate(if newCap < maxCap then newCap else maxCap);
      return true;
    }

    method EnsureMaxCap() returns (ok: bool)
      requires Valid()
      modifies this`head, this`tail, this`data, data
      ensures Valid() && (data == old(data) || fresh(data))
      ensures View() == BM.EnsureMaxCap(old(View())).view && ok == BM.EnsureMaxCap(old(View())).ok
    {
      if data.Length >= maxCap {
        return true;
      }
      ok := EnsureCap(maxCap - data.Length);
    }

    /** A byte behind the unread ones; there is room for it. */
    method StoreByte(b: byte)
      requires Valid() && tail < data.Length
      modifies this`tail, data
      ensures Valid() && View() == old(View()).(unread := old(Unread()) + [b])
    {
      data[tail] := b;
      tail := tail + 1;
      assert Unread() == old(Unread()) + [b];
    }

    method WriteByte(b: byte) returns (ok: bool)
      requires Valid()
      modifies this`head, this`tail, this`data, data
      ensures Valid() && (data == old(data) || fresh(data))
      ensures View() == BM.WriteByte(old(View()), b).view && ok == BM.WriteByte(old(View()), b).ok
    {
      BM.EnsureCapGuarantee(View(), 1);
      ok := EnsureCap(1);
      if !ok {
        return false;
      }
      StoreByte(b);
      return true;
    }

    /** Reading past the unread bytes but inside the storage is let through by the assertion at
        the start and fails that of the reset, which is reported instead of aborting. */
    method Read(count: nat) returns (ok: bool)
      requires Valid() && head + count <= data.Length
      modifies this`head, this`tail
      ensures ok <==> count <= |old(Unread())|
      ensures ok ==> Valid() && View() == BM.Read(old(View()), count)
      ensures ok ==> if old(head) + count == old(tail) then head == tail == 0
                     else head == old(head) + count && tail == old(tail)
    {
      head := head + count;
      if head > tail {
        return false;
      }
      var _ := ResetIfEmpty();
      return true;
    }

    /** Copy bytes behind the unread ones. */
    method CopyIn(s: seq<byte>)
      requires Valid() && tail + |s| <= data.Length
      modifies data
      ensures View() == old(View()) && data[tail..tail + |s|] == s
    {
      for i := 0 to |s|
        invariant forall k | 0 <= k < data.Length ::
                    data[k] == if tail <= k < tail + i then s[k - tail] else old(data[k])
      {
        data[tail + i] := s[i];
      }
    }

    /** Bytes already in place become unread ones. */
    method Wrote(len: nat)
      requires Valid() && tail + len <= data.Length
      modifies this`tail
      ensures Valid() && View() == old(View()).(unread := old(Unread()) + data[old(tail)..old(tail) + len])
    {
      tail := tail + len;
    }

    /** Copy what fits and count all of it as written; a failed length assertion is reported
        instead of aborting. */
    method CopyAndCount(s: seq<byte>) returns (ok: Option<bool>)
      requires Valid()
      modifies this`head, this`tail, data
      ensures if BM.Space(old(View())) < |s| then ok == None
              else ok == Some(true) && Valid()
                   && View() == BM.Reset(old(View())).(unread := old(Unread()) + s)
    {
      var space := Space();
      CopyIn(if space < |s| then s[..space] else s);
      if tail + |s| > data.Length {
        return None;
      }
      Wrote(|s|);
      return Some(true);
    }

    method WriteStr(s: seq<byte>) returns (ok: Option<bool>)
      requires Valid()
      modifies this`head, this`tail, this`data, data
      ensures data == old(data) || fresh(data)
      ensures match BM.WriteStr(old(View()), s)
              case Written(v) => ok == Some(true) && Valid() && View() == v
              case Refused(v) => ok == Some(false) && Valid() && View() == v
              case AssertionFails => ok == None
    {
      if |s| + (tail - head) > maxCap {
        return Some(false);
      }
      BM.EnsureCapGuarantee(View(), |s|);
      var grown := EnsureCap(|s|);
      if !grown {
        return Some(false);
      }
      ok := CopyAndCount(s);
    }

    method WriteNum(num: nat) returns (ok: Option<bool>)
      requires Valid() && num < WORD
      modifies this`head, this`tail, this`data, data
      ensures data == old(data) || fresh(data)
      ensures match BM.WriteStr(old(View()), Digits(num))
              case Written(v) => ok == Some(true) && Valid() && View() == v
              case Refused(v) => ok == Some(false) && Valid() && View() == v
              case AssertionFails => ok == None
    {
      TwentyDigits();
      DigitCount(num, NUM_SIZE);
      var tmp := new byte[NUM_SIZE](_ => 0);
      var len := ItoaInto(tmp, NUM_SIZE, num);
      assert tmp[..len] == Digits(num);
      ok := WriteStr(tmp[..len]);
    }

    /** The loop that reads the delimiters in front of a token. */
    method EatRun(delim: seq<byte>) returns (ghost eaten: nat)
      requires Valid()
      modifies this`head, this`tail
      ensures Valid() && eaten <= |old(Unread())| && Unread() == old(Unread())[eaten..]
      ensures forall i | 0 <= i < eaten :: old(Unread())[i] in delim
      ensures Unread() != [] ==> Unread()[0] !in delim && head == old(head) + eaten && tail == old(tail)
      ensures Unread() == [] ==>
                if old(Unread()) == [] then head == old(head) && tail == old(tail) else head == tail == 0
    {
      ghost var u, first := Unread(), head;
      eaten := 0;
      while head < tail && data[head] in delim
        invariant Valid() && eaten <= |u| && Unread() == u[eaten..]
        invariant forall i | 0 <= i < eaten :: u[i] in delim
        invariant eaten < |u| || u == [] ==> head == first + eaten && tail == first + |u|
        invariant eaten == |u| > 0 ==> head == tail == 0
        decreases |u| - eaten
      {
        ghost var rest := Unread();
        FirstOfRest(u, eaten, rest);
        var _ := Read(1);
        assert Unread() == rest[1..];
        eaten := eaten + 1;
      }
    }

    /** Read on to the first byte that is no delimiter. */
    method EatDelims(delim: seq<byte>)
      requires Valid()
      modifies this`head, this`tail
      ensures Valid()
      ensures var u := old(Unread()); var k := T.SkipDelims(u, 0, delim);
              && Unread() == u[k..]
              && (k < |u| || u == [] ==> head == old(head) + k && tail == old(tail))
              && (k == |u| > 0 ==> head == tail == 0)
    {
      ghost var u := Unread();
      ghost var eaten := EatRun(delim);
      assert Unread() != [] ==> Unread()[0] == u[eaten];
      T.SkipUnique(u, 0, eaten, delim);
    }

    method FindDelim(delim: seq<byte>) returns (end: nat)
      requires Valid()
      ensures head <= end <= tail && end - head == T.SkipToken(Unread(), 0, delim)
    {
      end := head;
      while end < tail && data[end] !in delim
        invariant head <= end <= tail
        invariant forall i | head <= i < end :: data[i] !in delim
      {
        end := end + 1;
      }
      assert forall i | 0 <= i < tail - head :: Unread()[i] == data[head + i];
      T.SkipUnique(Unread(), 0, end - head, delim);
    }

    /** The loop that overwrites the delimiters behind a token. */
    method ZeroRun(end: nat, delim: seq<byte>) returns (last: nat)
      requires Valid() && head <= end <= tail
      modifies data
      ensures end <= last <= tail && data[..] == Zeroed(old(data[..]), end, last)
      ensures forall i | end <= i < last :: old(data[..])[i] in delim
      ensures last < tail ==> old(data[..])[last] !in delim
    {
      ghost var was := data[..];
      last := end;
      while last < tail && data[last] in delim
        modifies data
        invariant end <= last <= tail
        invariant forall i | end <= i < last :: was[i] in delim
        invariant forall i | 0 <= i < data.Length :: data[i] == if end <= i < last then 0 else was[i]
      {
        data[last] := 0;
        last := last + 1;
      }
    }

    method ZeroDelims(end: nat, delim: seq<byte>) returns (last: nat)
      requires Valid() && head <= end <= tail
      modifies data
      ensures end <= last <= tail && last - head == T.SkipDelims(old(Unread()), end - head, delim)
      ensures data[..] == Zeroed(old(data[..]), end, last)
    {
      ghost var was, u := data[..], Unread();
      last := ZeroRun(end, delim);
      assert forall i | 0 <= i < |u| :: u[i] == was[head + i];
      T.SkipUnique(u, end - head, last - head, delim);
    }

    /** The next token, as a range of data; see Tokens. Delimiters behind it that are not
        preserved are overwritten with zeros, and no other byte changes. */
    method TokenNext(delim: seq<byte>, preserveEnd: bool) returns (start: nat, len: nat)
      requires Valid()
      modifies this`head, this`tail, data
      ensures Valid() && start + len <= data.Length
      ensures var u, c := old(Unread()), T.Next(old(Unread()), delim, preserveEnd);
              if c.start < |u|
              then start == old(head) + c.start && len == c.end - c.start
                   && head == old(head) + c.after && tail == old(tail)
              else len == 0 && if u == [] then head == old(head) && tail == old(tail) else head == tail == 0
      ensures var c := T.Next(old(Unread()), delim, preserveEnd);
              data[..] == Zeroed(old(data[..]), old(head) + c.end, old(head) + c.after)
    {
      ghost var was, u, k := data[..], Unread(), T.SkipDelims(Unread(), 0, delim);
      EatDelims(delim);
      var end := FindDelim(delim);
      var last := end;
      if !preserveEnd {
        last := ZeroDelims(end, delim);
      }
      assert data[..] == Zeroed(was, end, last);
      T.NextByRuns(u, delim, preserveEnd, k, end - head, last - head);
      start, len := head, end - head;
      head := last;
    }

    /** What that call leaves: the token's bytes in its range, and the bytes after it unread. */
    static lemma TokenBytes(was: seq<byte>, head: nat, tail: nat, c: T.Cut)
      requires head <= tail <= |was| && c.start <= c.end <= c.after <= tail - head
      ensures var u, now := was[head..tail], Zeroed(was, head + c.end, head + c.after);
              && now[head + c.start..head + c.end] == u[c.start..c.end]
              && now[head + c.after..tail] == u[c.after..]
    {
      var now := Zeroed(was, head + c.end, head + c.after);
      T.Window(was, head, tail, head + c.start, head + c.end);
      T.Window(was, head, tail, head + c.end, head + c.after);
      SameSlice(was, now, head + c.start, head + c.end);
      SameSlice(was, now, head + c.after, tail);
    }

    /** One call, by the bytes it yields: nothing if only delimiters were left. */
    method TakeToken(delim: seq<byte>, preserveEnd: bool) returns (token: seq<byte>)
      requires Valid()
      modifies this`head, this`tail, data
      ensures Valid()
      ensures var u, c := old(Unread()), T.Next(old(Unread()), delim, preserveEnd);
              token == u[c.start..c.end] && Unread() == u[c.after..]
    {
      ghost var was, h, t, u := data[..], head, tail, Unread();
      ghost var c := T.Next(u, delim, preserveEnd);
      assert u == was[h..t];
      var start, len := TokenNext(delim, preserveEnd);
      TokenBytes(was, h, t, c);
      ghost var now := data[..];
      assert c.start < |u| ==> now[start..start + len] == u[c.start..c.end] && now[head..tail] == u[c.after..];
      token := data[start..start + len];
      assert token == now[start..start + len] && Unread() == now[head..tail];
    }

    /** Taking tokens until none is left gives all tokens of the unread bytes, whichever calls
        preserve the delimiters behind theirs. */
    method TakeAllTokens(delim: seq<byte>, preserve: nat -> bool, n: nat) returns (tokens: seq<seq<byte>>)
      requires Valid()
      modifies this`head, this`tail, data
      ensures Valid() && tokens == T.All(old(Unread()), delim)
      decreases |Unread()|
    {
      ghost var u := Unread();
      T.PreservingKeepsTokens(u, delim, preserve, n);
      var token := TakeToken(delim, preserve(n));
      if token == [] {
        return [];
      }
      T.PreservingKeepsTokens(Unread(), delim, preserve, n + 1);
      var rest := TakeAllTokens(delim, preserve, n + 1);
      tokens := [token] + rest;
    }

    static predicate OccursAt(u: seq<byte>, needle: seq<byte>, i: nat) {
      i + |needle| <= |u| && u[i..i + |needle|] == needle
    }

    /** The first occurrence of the needle among the unread bytes, or -1. */
    method Memmem(needle: seq<byte>) returns (at: int)
      requires Valid() && needle != []
      ensures at == -1 ==> forall i: nat :: !OccursAt(Unread(), needle, i)
      ensures at != -1 ==> head <= at <= tail && OccursAt(Unread(), needle, at - head)
                           && forall i: nat | i < at - head :: !OccursAt(Unread(), needle, i)
    {
      at := head;
      while at + |needle| <= tail
        invariant head <= at <= tail
        invariant forall i: nat | i < at - head :: !OccursAt(Unread(), needle, i)
        decreases tail - at
      {
        T.Window(data[..], head, tail, at, at + |needle|);
        if data[at..at + |needle|] == needle {
          return;
        }
        at := at + 1;
      }
      return -1;
    }

    /** Consumes the needle exactly if the unread bytes begin with it. */
    method Consume(needle: seq<byte>) returns (ok: bool)
      requires Valid() && needle != []
      modifies this`head, this`tail
      ensures Valid() && ok == (needle <= old(Unread()))
      ensures View() == if ok then BM.Read(old(View()), |needle|) else old(View())
    {
      var at := Memmem(needle);
      assert needle <= Unread() <==> OccursAt(Unread(), needle, 0);
      if at == -1 {
        return false;
      }
      if at != head {
        return false;
      }
      var _ := Read(|needle|);
      return true;
    }
  }
}
