/**
  The worker side of interListener.go: admission against the whitelist, the
  claim rule `getRealIndex`, and the life of one slot inside `handler`
  (claim, the raw OuterIP read, count reports, release).
 */
module InterListener {
  import opened Wrappers
  import opened Common
  import opened Registry

  /** `readBuffer := make([]byte, 24)`: the buffer every read of a session uses. */
  const ReadBufferSize := 24

  /** `Listen` hands a worker to `handler` exactly when the host part of its address is a whitelist key. */
  predicate Admit(whiteList: set<string>, remoteAddr: string)
  {
    TrimIP(remoteAddr) in whiteList
  }

  /**
    Admission as a rule about the raw address: a worker is admitted iff some
    whitelist entry without ':' is its whole address or is followed by ':' in it.
   */
  lemma AdmitIff(whiteList: set<string>, remoteAddr: string)
    ensures Admit(whiteList, remoteAddr) <==>
      exists k :: k in whiteList && ':' !in k && (remoteAddr == k || k + [':'] <= remoteAddr)
  {
    var host := TrimIP(remoteAddr);
    if Admit(whiteList, remoteAddr) {
      if ':' in remoteAddr {
        assert host + [':'] <= remoteAddr;
      }
    }
    forall k | k in whiteList && ':' !in k && (remoteAddr == k || k + [':'] <= remoteAddr)
      ensures Admit(whiteList, remoteAddr)
    {
      if remoteAddr != k {
        assert remoteAddr == k + [':'] + remoteAddr[|k| + 1..];
        TrimIPOfHostPort(k, remoteAddr[|k| + 1..]);
      }
    }
  }

  /** Some record is free (`Connected == false`). */
  ghost predicate HasFree(s: seq<ConnectionInfo>)
  {
    exists j :: 0 <= j < |s| && !s[j].connected
  }

  /** The scan of `getRealIndex` from index `from` on: the first free index, or `Count()` when there is none. */
  function FirstFree(c: Connections, from: int): (r: int)
    requires Valid(c) && 0 <= from <= Count(c)
    ensures from <= r <= Count(c)
    ensures forall j :: from <= j < r ==> Elements(c)[j].connected
    ensures r < Count(c) ==> !Elements(c)[r].connected
    decreases Count(c) - from
  {
    if from == Count(c) then from
    else if !At(c, from).value.connected then from
    else FirstFree(c, from + 1)
  }

  /** The slot `getRealIndex` hands out and the registry it leaves behind. */
  datatype Claim = Claim(index: int, registry: Connections)

  /**
    `getRealIndex`: the lowest free slot, with the registry untouched; when
    every slot is taken, one zero record is appended and its index (the old
    count) is returned.
   */
  function GetRealIndex(c: Connections): (r: Claim)
    requires Valid(c)
    ensures Valid(r.registry) && r.registry.capacity == c.capacity
    ensures 0 <= r.index < Count(r.registry) && r.index <= Count(c)
    ensures !Elements(r.registry)[r.index].connected
    ensures forall j :: 0 <= j < r.index ==> Elements(c)[j].connected
    ensures HasFree(Elements(c)) ==> r.registry == c
    ensures !HasFree(Elements(c)) ==>
      r.index == Count(c) && Count(r.registry) == Count(c) + 1 && Elements(r.registry) == Elements(c) + [Zero]
  {
    var i := FirstFree(c, 0);
    if i < Count(c) then
      Claim(i, c)
    else
      Claim(Count(c), Append(c, Zero))
  }

  /** The record `handler` writes into its slot right after claiming it. */
  function Claimed(peer: string): ConnectionInfo
  {
    ConnectionInfo(true, peer, "", 0)
  }

  /**
    Go's `string(bytes)`. A Go string keeps the bytes as they are; here each
    byte is the char with the same code, the one-char-per-byte reading that all
    addresses in this model use, so string positions are byte offsets.
   */
  function BytesToString(b: seq<byte>): string
  {
    seq(|b|, i requires 0 <= i < |b| => b[i] as int as char)
  }

  /** Where the count-report loop of `handler` stopped: the slot then, and how many reports it accepted. */
  datatype LoopExit = LoopExit(slot: ConnectionInfo, accepted: nat)

  /**
    The `for` loop of `handler`: every `ReadUint32` with a nil error overwrites
    the slot's Count and nothing else; the first read with an error ends the
    session. Running out of events is the stream ending.
   */
  function ReadLoop(slot: ConnectionInfo, reports: seq<ReadEvent>): (r: LoopExit)
    requires forall k :: 0 <= k < |reports| ==> ReaderContract(ReadBufferSize, reports[k])
    ensures r.accepted <= |reports|
    ensures r.slot == slot.(count := r.slot.count)
    ensures forall k :: 0 <= k < r.accepted ==> ReadUint32(ReadBufferSize, reports[k]).err == Nil
    ensures r.accepted < |reports| ==> ReadUint32(ReadBufferSize, reports[r.accepted]).err != Nil
    ensures r.accepted == 0 ==> r.slot == slot
    ensures r.accepted > 0 ==> r.slot.count == ReadUint32(ReadBufferSize, reports[r.accepted - 1]).value
    decreases |reports|
  {
    if |reports| == 0 then
      LoopExit(slot, 0)
    else
      var res := ReadUint32(ReadBufferSize, reports[0]);
      if res.err == Nil then
        var rest := ReadLoop(slot.(count := res.value), reports[1..]);
        LoopExit(rest.slot, rest.accepted + 1)
      else
        LoopExit(slot, 0)
  }

  /**
    One `handler` run: the slot it claimed, the slot's contents when the
    session ended (`active`), the registry at that moment (`live`), how many
    count reports were accepted, and the registry after the deferred release.
   */
  datatype SessionTrace = SessionTrace(index: int, active: ConnectionInfo, live: Connections, accepted: nat, final: Connections)

  predicate SessionReads(first: ReadEvent, reports: seq<ReadEvent>)
  {
    && ReaderContract(ReadBufferSize, first)
    && forall k :: 0 <= k < |reports| ==> ReaderContract(ReadBufferSize, reports[k])
  }

  /**
    `handler(conn)` for a worker at `peer`: it claims a slot, marks it
    connected with InterIP `peer` and empty OuterIP and Count, takes OuterIP
    from the raw first read (a failed first read ends the session), keeps the
    last accepted count report, and on exit resets the slot to the zero record,
    which the next claim hands out again.
   */
  function Session(c: Connections, peer: string, first: ReadEvent, reports: seq<ReadEvent>): (r: SessionTrace)
    requires Valid(c) && SessionReads(first, reports)
    ensures r.index == GetRealIndex(c).index
    ensures r.active.connected && r.active.interIP == peer
    ensures first.err != Nil ==> r.active == Claimed(peer) && r.accepted == 0
    ensures first.err == Nil ==> r.active.outerIP == BytesToString(first.data[..first.n])
    ensures r.accepted <= |reports|
    ensures forall k :: 0 <= k < r.accepted ==> ReadUint32(ReadBufferSize, reports[k]).err == Nil
    ensures r.accepted == 0 ==> r.active.count == 0
    ensures r.accepted > 0 ==> r.active.count == ReadUint32(ReadBufferSize, reports[r.accepted - 1]).value
    ensures first.err == Nil && r.accepted < |reports| ==> ReadUint32(ReadBufferSize, reports[r.accepted]).err != Nil
    ensures Valid(r.live) && Valid(r.final)
    ensures Elements(r.live) == Elements(GetRealIndex(c).registry)[r.index := r.active]
    ensures Elements(r.final) == Elements(GetRealIndex(c).registry)[r.index := Zero]
    ensures GetRealIndex(r.final) == Claim(r.index, r.final)
  {
    var claim := GetRealIndex(c);
    var i := claim.index;
    var slot := Claimed(peer);
    var exit :=
      if first.err != Nil then LoopExit(slot, 0)
      else ReadLoop(slot.(outerIP := BytesToString(first.data[..first.n])), reports);
    var final := Set(claim.registry, i, Zero);
    ReleasedSlotIsReused(c, claim, final);
    SessionTrace(i, exit.slot, Set(claim.registry, i, exit.slot), exit.accepted, final)
  }

  /** After the release, every slot below the released one is still taken, so the next claim returns it. */
  lemma ReleasedSlotIsReused(c: Connections, claim: Claim, final: Connections)
    requires Valid(c) && claim == GetRealIndex(c)
    requires Valid(final) && Elements(final) == Elements(claim.registry)[claim.index := Zero]
    ensures GetRealIndex(final) == Claim(claim.index, final)
  {
    var i := claim.index;
    assert !Elements(final)[i].connected;
    assert HasFree(Elements(final));
    forall j | 0 <= j < i
      ensures Elements(final)[j].connected
    {
      assert Elements(final)[j] == Elements(claim.registry)[j];
      if !HasFree(Elements(c)) {
        assert Elements(claim.registry)[j] == Elements(c)[j];
      }
    }
    var i' := FirstFree(final, 0);
    if i' < i {
      assert false;
    }
  }

  /** The number of taken slots. */
  ghost function ConnectedCount(s: seq<ConnectionInfo>): nat
  {
    if |s| == 0 then 0 else ConnectedCount(s[..|s| - 1]) + (if s[|s| - 1].connected then 1 else 0)
  }

  lemma {:induction false} ConnectedCountUpdate(s: seq<ConnectionInfo>, i: int, x: ConnectionInfo)
    requires 0 <= i < |s|
    ensures ConnectedCount(s[i := x]) ==
      ConnectedCount(s) - (if s[i].connected then 1 else 0) + (if x.connected then 1 else 0)
  {
    var n := |s|;
    if i == n - 1 {
      assert s[i := x][..n - 1] == s[..n - 1];
    } else {
      assert s[i := x][..n - 1] == s[..n - 1][i := x];
      ConnectedCountUpdate(s[..n - 1], i, x);
    }
  }

  /** Every free slot holds the zero record: appends add zero records and releases write them. */
  ghost predicate FreeSlotsZero(s: seq<ConnectionInfo>)
  {
    forall i :: 0 <= i < |s| && !s[i].connected ==> s[i] == Zero
  }

  /**
    A session counts as one more taken slot while it runs, and when it ends the
    registry holds the same records as before, possibly with one extra free
    zero record at the end; so the number of taken slots equals the number of
    running sessions.
   */
  lemma SessionAccounting(c: Connections, peer: string, first: ReadEvent, reports: seq<ReadEvent>)
    requires Valid(c) && SessionReads(first, reports)
    requires FreeSlotsZero(Elements(c))
    ensures ConnectedCount(Elements(Session(c, peer, first, reports).live)) == ConnectedCount(Elements(c)) + 1
    ensures ConnectedCount(Elements(Session(c, peer, first, reports).final)) == ConnectedCount(Elements(c))
    ensures FreeSlotsZero(Elements(Session(c, peer, first, reports).final))
    ensures Elements(Session(c, peer, first, reports).final) in {Elements(c), Elements(c) + [Zero]}
  {
    var r := Session(c, peer, first, reports);
    var s := Elements(GetRealIndex(c).registry);
    ClaimAccounting(c);
    assert s[r.index := Zero] == s;
    ConnectedCountUpdate(s, r.index, r.active);
  }

  /** Claiming takes a zero record and changes neither the taken slots nor the zero-free-slot property. */
  lemma ClaimAccounting(c: Connections)
    requires Valid(c) && FreeSlotsZero(Elements(c))
    ensures var s := Elements(GetRealIndex(c).registry);
      && s[GetRealIndex(c).index] == Zero
      && FreeSlotsZero(s)
      && ConnectedCount(s) == ConnectedCount(Elements(c))
      && s in {Elements(c), Elements(c) + [Zero]}
  {
    var claim := GetRealIndex(c);
    var s := Elements(claim.registry);
    if !HasFree(Elements(c)) {
      assert s[..|s| - 1] == Elements(c);
    }
  }
}
