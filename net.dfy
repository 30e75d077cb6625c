/**
 * The data handling of the pool protocol client: the queue of shares that
 * wait for the pool's verdict, the bookkeeping of a share-info reply (one
 * statistics counter per reply, and the count of consecutive rejections
 * that forces a reconnect), the time offset taken from received work and
 * the bytes of the hello message.
 */
module Net {
  import opened Numbers
  import opened Block

  newtype u16 = x: int | 0 <= x < 0x1_0000

  newtype i32 = x: int | -0x8000_0000 <= x < 0x8000_0000

  /** The message types the pool sends. */
  const WorkMsg: int := 0
  const ShareInfoMsg: int := 1

  /** The miner's version, sent in the hello message. */
  const VersionMajor: u8 := 0
  const VersionMinor: u8 := 8

  /** A reply above this value reports a share that was a new block. */
  const BlockReply: int := 100000

  /** The number of consecutive rejections that forces a reconnect. */
  const RejectsBeforeReconnect: nat := 3

  // ---------------------------------------------------------------------
  // The pending-share queue

  /** A queue element: the verbose text of one submitted share. */
  class FifoE {
    var str: string
    var next: FifoE?

    /** A calloc'd element: its `next` is null. */
    constructor (str: string)
      ensures this.str == str && next == null
    {
      this.str := str;
      next := null;
    }
  }

  /**
   * The FIFO of pending shares, a singly linked list from `start` to `end`.
   * `nodes` is the ghost list of its elements, oldest first.
   */
  class ShareFifo {
    var start: FifoE?
    var end: FifoE?
    ghost var nodes: seq<FifoE>

    /**
     * The links follow `nodes`: start is the first element, end the last,
     * each element's next is its successor, the last one's next is null,
     * and no element occurs twice.
     */
    ghost predicate Valid()
      reads this, nodes
    {
      (|nodes| == 0 ==> start == null && end == null) &&
      (|nodes| > 0 ==> start == nodes[0] && end == nodes[|nodes| - 1] && nodes[|nodes| - 1].next == null) &&
      (forall i :: 0 <= i < |nodes| - 1 ==> nodes[i].next == nodes[i + 1]) &&
      (forall i, j :: 0 <= i < j < |nodes| ==> nodes[i] != nodes[j])
    }

    /** The static queue starts out with both pointers null. */
    constructor ()
      ensures Valid() && nodes == []
    {
      start := null;
      end := null;
      nodes := [];
    }

    /**
     * `fifo_add`: appends e. On an empty queue start and end become e;
     * otherwise the old end is linked to e and start stays. e must be a
     * fresh (calloc'd) element, so its next is null.
     */
    method Add(e: FifoE)
      requires Valid() && e !in nodes && e.next == null
      modifies this, end
      ensures Valid() && nodes == old(nodes) + [e]
      ensures old(nodes) == [] ==> start == e && end == e
      ensures old(nodes) != [] ==> start == old(start) && end == e && old(end).next == e
    {
      if start == null {
        start := e;
      }
      if end != null {
        end.next := e;
      }
      end := e;
      nodes := nodes + [e];
    }

    /**
     * `fifo_rem`: removes and returns the oldest element, or null on an
     * empty queue, which stays empty. Removing the last element leaves both
     * pointers null.
     */
    method Remove() returns (e: FifoE?)
      requires Valid()
      modifies this
      ensures Valid()
      ensures old(nodes) == [] ==> e == null && nodes == []
      ensures old(nodes) != [] ==> e == old(nodes)[0] && nodes == old(nodes)[1..]
      ensures nodes == [] ==> start == null && end == null
    {
      e := start;
      if start == end {
        end := null;
      }
      if start != null {
        start := start.next;
      }
      if nodes != [] {
        nodes := nodes[1..];
      }
    }
  }

  // ---------------------------------------------------------------------
  // Share-info replies

  /** What the pool says about a share. */
  datatype Outcome = Rejected | Stale | BlockFound | Accepted

  /** The reading of a share-info reply value. */
  function Classify(reply: int): Outcome
  {
    if reply == 0 then Rejected
    else if reply < 0 then Stale
    else if reply > BlockReply then BlockFound
    else Accepted
  }

  /** The share counters of the mining statistics. */
  datatype Stats = Stats(share: nat, rejected: nat, stale: nat, block: nat)

  /** The counter that belongs to an outcome. */
  function Count(s: Stats, o: Outcome): nat
  {
    match o
    case Rejected => s.rejected
    case Stale => s.stale
    case BlockFound => s.block
    case Accepted => s.share
  }

  /** All share counters added up. */
  function Total(s: Stats): nat
  {
    s.share + s.rejected + s.stale + s.block
  }

  /** The statistics after one reply: exactly one counter goes up by one. */
  function Record(s: Stats, o: Outcome): (r: Stats)
    ensures Count(r, o) == Count(s, o) + 1
    ensures forall o' :: o' != o ==> Count(r, o') == Count(s, o')
    ensures Total(r) == Total(s) + 1
  {
    match o
    case Rejected => s.(rejected := s.rejected + 1)
    case Stale => s.(stale := s.stale + 1)
    case BlockFound => s.(block := s.block + 1)
    case Accepted => s.(share := s.share + 1)
  }

  /**
   * The consecutive-reject count after one reply: a rejection adds one,
   * every other outcome resets it.
   */
  function NextRejected(count: nat, reply: int): nat
  {
    if Classify(reply) == Rejected then count + 1 else 0
  }

  /** The statistics after a series of replies, first reply first. */
  function RecordAll(s: Stats, replies: seq<int>): Stats
    decreases |replies|
  {
    if replies == [] then s else RecordAll(Record(s, Classify(replies[0])), replies[1..])
  }

  /** The consecutive-reject count after a series of replies. */
  function RejectedAfter(count: nat, replies: seq<int>): nat
    decreases |replies|
  {
    if replies == [] then count else RejectedAfter(NextRejected(count, replies[0]), replies[1..])
  }

  /** How many of the replies have outcome o. */
  function Occurrences(replies: seq<int>, o: Outcome): nat
  {
    if replies == [] then 0
    else (if Classify(replies[0]) == o then 1 else 0) + Occurrences(replies[1..], o)
  }

  /** The number of rejections at the end of the series. */
  function TrailingRejects(replies: seq<int>): nat
  {
    if replies == [] || replies[|replies| - 1] != 0 then 0
    else 1 + TrailingRejects(replies[..|replies| - 1])
  }

  /**
   * After any series of replies each counter has gone up by the number of
   * replies with its outcome.
   */
  lemma {:induction false} RecordAllCounts(s: Stats, replies: seq<int>, o: Outcome)
    ensures Count(RecordAll(s, replies), o) == Count(s, o) + Occurrences(replies, o)
    decreases |replies|
  {
    if replies != [] {
      RecordAllCounts(Record(s, Classify(replies[0])), replies[1..], o);
    }
  }

  /** Every outcome is counted once: the counters add up to the replies. */
  lemma {:induction false} RecordAllTotal(s: Stats, replies: seq<int>)
    ensures Total(RecordAll(s, replies)) == Total(s) + |replies|
    decreases |replies|
  {
    if replies != [] {
      RecordAllTotal(Record(s, Classify(replies[0])), replies[1..]);
    }
  }

  /** One more reply at the end of the series updates the count once. */
  lemma {:induction false} RejectedAfterAppend(count: nat, replies: seq<int>, reply: int)
    ensures RejectedAfter(count, replies + [reply]) == NextRejected(RejectedAfter(count, replies), reply)
    decreases |replies|
  {
    if replies == [] {
      assert replies + [reply] == [reply];
    } else {
      assert (replies + [reply])[1..] == replies[1..] + [reply];
      RejectedAfterAppend(NextRejected(count, replies[0]), replies[1..], reply);
    }
  }

  /**
   * From the initial count 0, the count after a series of replies is the
   * number of rejections that end the series.
   */
  lemma {:induction false} RejectedIsTrailingRejects(replies: seq<int>)
    ensures RejectedAfter(0, replies) == TrailingRejects(replies)
  {
    if replies != [] {
      var init := replies[..|replies| - 1];
      var last := replies[|replies| - 1];
      assert init + [last] == replies;
      RejectedIsTrailingRejects(init);
      RejectedAfterAppend(0, init, last);
    }
  }

  /**
   * The series ends in at least k rejections exactly when its last k
   * replies are all zero.
   */
  lemma {:induction false} TrailingAtLeast(replies: seq<int>, k: nat)
    ensures TrailingRejects(replies) >= k <==>
      k <= |replies| && forall i :: |replies| - k <= i < |replies| ==> replies[i] == 0
  {
    var n := |replies|;
    if k > 0 && n > 0 && replies[n - 1] == 0 {
      var init := replies[..n - 1];
      TrailingAtLeast(init, k - 1);
      assert forall i :: 0 <= i < n - 1 ==> init[i] == replies[i];
    }
  }

  /**
   * The count is 3, and a reconnect happens, exactly after the third of a
   * run of rejections: the last three replies are rejections and the one
   * before them, if any, is not. A fourth rejection in a row does not
   * reconnect again.
   */
  lemma ReconnectIff(replies: seq<int>)
    ensures var n := |replies|;
      RejectedAfter(0, replies) == RejectsBeforeReconnect <==>
      (n >= 3 && replies[n - 3] == 0 && replies[n - 2] == 0 && replies[n - 1] == 0 &&
       (n == 3 || replies[n - 4] != 0))
  {
    RejectedIsTrailingRejects(replies);
    TrailingAtLeast(replies, 3);
    TrailingAtLeast(replies, 4);
  }

  /**
   * The client state the share-info branch of `recv_work` touches: the
   * statistics, the static consecutive-reject count and the queue.
   */
  class Client {
    var stats: Stats
    var rejected: nat
    var pending: ShareFifo

    ghost predicate Valid()
      reads this, pending, pending.nodes
    {
      pending.Valid()
    }

    constructor ()
      ensures Valid() && stats == Stats(0, 0, 0, 0) && rejected == 0 && pending.nodes == []
      ensures fresh(pending)
    {
      stats := Stats(0, 0, 0, 0);
      rejected := 0;
      pending := new ShareFifo();
    }

    /**
     * The share-info branch of `recv_work`. `reply` is the 4-byte value the
     * socket delivered, None if it did not deliver 4 bytes. Without a reply,
     * or without a pending share, the result is -1 and no counter changes;
     * otherwise the oldest pending share is consumed, exactly one counter
     * goes up, the consecutive-reject count is updated and `reconnect` says
     * whether the client must reconnect (the count is then left as it is).
     */
    method ShareInfo(reply: Option<i32>) returns (ret: int, reconnect: bool)
      requires Valid()
      modifies this, pending
      ensures Valid() && pending == old(pending)
      ensures reply.None? ==>
        (ret == -1 && !reconnect && stats == old(stats) &&
         rejected == old(rejected) && pending.nodes == old(pending.nodes))
      ensures reply.Some? && old(pending.nodes) == [] ==>
        (ret == -1 && !reconnect &&
         stats == old(stats) && rejected == old(rejected) && pending.nodes == [])
      ensures reply.Some? && old(pending.nodes) != [] ==>
        (ret == ShareInfoMsg && pending.nodes == old(pending.nodes)[1..] &&
        stats == Record(old(stats), Classify(reply.value as int)) &&
        rejected == NextRejected(old(rejected), reply.value as int) &&
        (reconnect <==> rejected == RejectsBeforeReconnect))
    {
      reconnect := false;
      if reply.None? {
        return -1, false;
      }
      var buffer := reply.value as int;
      var next := pending.Remove();
      if next == null {
        return -1, false;
      }
      var outcome := Classify(buffer);
      stats := Record(stats, outcome);
      if outcome == Rejected {
        rejected := rejected + 1;
      } else {
        rejected := 0;
      }
      reconnect := rejected == RejectsBeforeReconnect;
      ret := ShareInfoMsg;
    }
  }

  // ---------------------------------------------------------------------
  // Received work

  /**
   * The time offset set on received work: how far the work's time is ahead
   * of the local clock, and 0 when it is not ahead.
   */
  function TimeOffsetFor(localTime: u32, headerTime: u32): (offset: nat)
    ensures localTime as nat + offset >= headerTime as nat
    ensures offset == 0 || localTime as nat + offset == headerTime as nat
    ensures offset < TwoTo32
  {
    if localTime > headerTime then 0 else (headerTime - localTime) as nat
  }

  /**
   * With that offset, the time a thread stamps on the work at the same
   * local clock (before the 32-bit wrap) is after the work's own time.
   */
  lemma ThreadTimeAfterWork(localTime: u32, headerTime: u32, nThreads: u32, curThread: u32)
    requires nThreads > 0
    requires TimeOffsetFor(localTime, headerTime) + NextMultiple(localTime as nat, nThreads as nat) + curThread as nat < TwoTo32
    ensures ThreadTime(TimeOffsetFor(localTime, headerTime), localTime as nat, nThreads, curThread) > headerTime
  {
    var offset := TimeOffsetFor(localTime, headerTime);
    var m := NextMultiple(localTime as nat, nThreads as nat);
    assert offset + m + curThread as nat < TwoTo32;
  }

  // ---------------------------------------------------------------------
  // The hello message

  /** The values the hello message carries. */
  datatype HelloFields = HelloFields(user: seq<u8>, pwd: seq<u8>, threads: u8, fee: u8,
                                     minerId: u16, extensions: u32, percentage: u32, sieveSize: u32)

  /** The user name length as the uint8_t the message stores. */
  function UserLen(h: HelloFields): nat { |h.user| % 256 }

  /** The password length as the uint8_t the message stores. */
  function PwdLen(h: HelloFields): nat { |h.pwd| % 256 }

  /** The length of a settings block. */
  const SettingsLength: nat := 19

  /**
   * The 19 bytes between the user name and the password length: a zero,
   * the version, thread count and fee, then the miner id (2 bytes) and the
   * sieve extensions, percentage and size (4 bytes each). Multi-byte values
   * are little-endian, the host order of the x86 targets the miner is
   * built for.
   */
  function Settings(h: HelloFields): (m: seq<u8>)
    ensures |m| == SettingsLength
  {
    LELength(h.minerId as nat, 2);
    LELength(h.extensions as nat, 4);
    LELength(h.percentage as nat, 4);
    LELength(h.sieveSize as nat, 4);
    [0, VersionMajor, VersionMinor, h.threads, h.fee] + LE(h.minerId as nat, 2) +
    LE(h.extensions as nat, 4) + LE(h.percentage as nat, 4) + LE(h.sieveSize as nat, 4)
  }

  /**
   * The hello message: the user length and user name, the settings block,
   * the password length and password and a 2-byte zero. Only as many bytes
   * of the user name and password as their uint8_t lengths say are copied.
   */
  function HelloBytes(h: HelloFields): (b: seq<u8>)
    ensures |b| == UserLen(h) + 23 + PwdLen(h)
  {
    var ul := UserLen(h);
    var pl := PwdLen(h);
    ([ul as u8] + h.user[..ul]) + Settings(h) + ([pl as u8] + h.pwd[..pl] + [0, 0])
  }

  /** The offsets of the values inside the settings block. */
  lemma SettingsLayout(h: HelloFields)
    ensures var m := Settings(h);
      m[0] == 0 && m[1] == VersionMajor && m[2] == VersionMinor &&
      m[3] == h.threads && m[4] == h.fee &&
      m[5..7] == LE(h.minerId as nat, 2) && m[7..11] == LE(h.extensions as nat, 4) &&
      m[11..15] == LE(h.percentage as nat, 4) && m[15..19] == LE(h.sieveSize as nat, 4)
  {
    LELength(h.minerId as nat, 2);
    LELength(h.extensions as nat, 4);
    LELength(h.percentage as nat, 4);
    LELength(h.sieveSize as nat, 4);
    var q0 := [0, VersionMajor, VersionMinor, h.threads, h.fee] + LE(h.minerId as nat, 2);
    var q1 := q0 + LE(h.extensions as nat, 4);
    var q2 := q1 + LE(h.percentage as nat, 4);
    assert Settings(h) == q2 + LE(h.sieveSize as nat, 4);
  }

  /**
   * Where `send_hello` puts each part: the user length at 0, the user name
   * from 1, the settings block from user_len + 1 (so the miner id at
   * user_len + 6 and the three u32 values at user_len + 8, + 12 and + 16),
   * the password length at user_len + 20, the password from user_len + 21
   * and the 2-byte zero at the end.
   */
  lemma HelloLayout(h: HelloFields)
    ensures var b, ul, pl := HelloBytes(h), UserLen(h), PwdLen(h);
      b[0] as nat == ul && b[1..ul + 1] == h.user[..ul] &&
      b[ul + 1..ul + 20] == Settings(h) &&
      b[ul + 20] as nat == pl && b[ul + 21..ul + 21 + pl] == h.pwd[..pl] &&
      b[ul + 21 + pl..] == [0, 0]
  {
    var ul, pl := UserLen(h), PwdLen(h);
    var head := [ul as u8] + h.user[..ul];
    var tail := [pl as u8] + h.pwd[..pl] + [0, 0];
    assert HelloBytes(h) == head + Settings(h) + tail;
    assert (head + Settings(h) + tail)[ul + 20..] == tail;
  }

  /** The user name and password cut to the lengths the message stores. */
  function Truncate(h: HelloFields): (t: HelloFields)
    ensures |h.user| < 256 && |h.pwd| < 256 ==> t == h
  {
    h.(user := h.user[..UserLen(h)], pwd := h.pwd[..PwdLen(h)])
  }

  /** 2^16 and 2^32 written out. */
  lemma Pow2Widths()
    ensures Pow2(16) == 0x1_0000 && Pow2(32) == TwoTo32
  {
    assert Pow2(8) == 256;
    Pow2Square(8, 256);
    Pow2Square(16, 0x1_0000);
  }

  /** Two little-endian bytes hold a u16. */
  lemma Bound16(x: seq<u8>)
    requires |x| == 2
    ensures FromLE(x) < 0x1_0000
  {
    Pow2Widths();
    FromLEBound(x);
  }

  /** Four little-endian bytes hold a u32. */
  lemma Bound32(x: seq<u8>)
    requires |x| == 4
    ensures FromLE(x) < TwoTo32
  {
    Pow2Widths();
    FromLEBound(x);
  }

  /** The values of a settings block, with the given user name and password. */
  function FieldsOf(user: seq<u8>, pwd: seq<u8>, m: seq<u8>): HelloFields
    requires |m| == SettingsLength
  {
    Bound16(m[5..7]);
    Bound32(m[7..11]);
    Bound32(m[11..15]);
    Bound32(m[15..19]);
    HelloFields(user, pwd, m[3], m[4], FromLE(m[5..7]) as u16, FromLE(m[7..11]) as u32,
                FromLE(m[11..15]) as u32, FromLE(m[15..19]) as u32)
  }

  /** Reading a settings block gives back the values it was made of. */
  lemma SettingsRoundTrip(h: HelloFields)
    ensures FieldsOf(h.user, h.pwd, Settings(h)) == h
  {
    SettingsLayout(h);
    Pow2Widths();
    LERoundTrip(h.minerId as nat, 2);
    LERoundTrip(h.extensions as nat, 4);
    LERoundTrip(h.percentage as nat, 4);
    LERoundTrip(h.sieveSize as nat, 4);
  }

  /** A block that starts with 0 and the version is the settings block of its values. */
  lemma SettingsInverse(user: seq<u8>, pwd: seq<u8>, m: seq<u8>)
    requires |m| == SettingsLength && m[0] == 0 && m[1] == VersionMajor && m[2] == VersionMinor
    ensures Settings(FieldsOf(user, pwd, m)) == m
  {
    var h := FieldsOf(user, pwd, m);
    SettingsLayout(h);
    LEOfFromLE(m[5..7]);
    LEOfFromLE(m[7..11]);
    LEOfFromLE(m[11..15]);
    LEOfFromLE(m[15..19]);
    SameBlocks(Settings(h), m);
  }

  /** Two settings-sized blocks that agree on the first five bytes and on each multi-byte value are equal. */
  lemma SameBlocks(a: seq<u8>, b: seq<u8>)
    requires |a| == SettingsLength && |b| == SettingsLength
    requires a[0] == b[0] && a[1] == b[1] && a[2] == b[2] && a[3] == b[3] && a[4] == b[4]
    requires a[5..7] == b[5..7] && a[7..11] == b[7..11] && a[11..15] == b[11..15] && a[15..19] == b[15..19]
    ensures a == b
  {
    assert a[..5] == b[..5];
    assert a == a[..5] + a[5..7] + a[7..11] + a[11..15] + a[15..19];
    assert b == b[..5] + b[5..7] + b[7..11] + b[11..15] + b[15..19];
  }

  /**
   * The pool's reading of a hello message: the two lengths must agree with
   * the message length, and the separators and version bytes must be the
   * ones `send_hello` writes; None otherwise.
   */
  function ParseHello(b: seq<u8>): Option<HelloFields>
  {
    if |b| < 23 then None
    else
      var ul := b[0] as nat;
      if |b| < ul + 23 then None
      else
        var pl := b[ul + 20] as nat;
        if |b| != ul + 23 + pl then None
        else if b[ul + 1] != 0 || b[ul + 2] != VersionMajor || b[ul + 3] != VersionMinor ||
                b[ul + 21 + pl] != 0 || b[ul + 22 + pl] != 0 then None
        else Some(FieldsOf(b[1..ul + 1], b[ul + 21..ul + 21 + pl], b[ul + 1..ul + 20]))
  }

  /**
   * The pool reads back every value the miner sent; the user name and
   * password come back as far as their uint8_t lengths reach, so in full
   * when they are shorter than 256 bytes.
   */
  lemma HelloRoundTrip(h: HelloFields)
    ensures ParseHello(HelloBytes(h)) == Some(Truncate(h))
  {
    var ul, pl := UserLen(h), PwdLen(h);
    SettingsLayout(h);
    ParseOfPieces(HelloBytes(h), h.user[..ul], h.pwd[..pl], Settings(h));
    SettingsRoundTrip(Truncate(h));
    assert Settings(Truncate(h)) == Settings(h);
  }

  /** A message assembled from a user name, a settings block and a password parses back into them. */
  lemma ParseOfPieces(b: seq<u8>, user: seq<u8>, pwd: seq<u8>, m: seq<u8>)
    requires |user| < 256 && |pwd| < 256
    requires |m| == SettingsLength && m[0] == 0 && m[1] == VersionMajor && m[2] == VersionMinor
    requires b == ([|user| as u8] + user) + m + ([|pwd| as u8] + pwd + [0, 0])
    ensures ParseHello(b) == Some(FieldsOf(user, pwd, m))
  {
    var ul, pl := |user|, |pwd|;
    var head := [ul as u8] + user;
    var tail := [pl as u8] + pwd + [0, 0];
    assert b[1..ul + 1] == user;
    assert b[ul + 1..ul + 20] == m;
    assert b[ul + 20..] == tail;
    assert b[ul + 20] as nat == pl;
    assert b[ul + 21..ul + 21 + pl] == pwd;
    assert b[ul + 21 + pl] == tail[1 + pl] && b[ul + 22 + pl] == tail[2 + pl];
  }

  /** Every message the pool accepts is the hello message of what it read. */
  lemma ParseHelloInverse(b: seq<u8>)
    ensures ParseHello(b).Some? ==> HelloBytes(ParseHello(b).value) == b
  {
    if ParseHello(b).Some? {
      var ul := b[0] as nat;
      var pl := b[ul + 20] as nat;
      ParsedLayout(b, ul, pl);
      HelloOfPieces(b[1..ul + 1], b[ul + 21..ul + 21 + pl], b[ul + 1..ul + 20]);
    }
  }

  /** An accepted message: its pieces, and the fields read from them. */
  lemma ParsedLayout(b: seq<u8>, ul: nat, pl: nat)
    requires ParseHello(b).Some? && |b| > 0 && ul == b[0] as nat && ul + 20 < |b| && pl == b[ul + 20] as nat
    ensures |b| == ul + 23 + pl
    ensures ParseHello(b).value == FieldsOf(b[1..ul + 1], b[ul + 21..ul + 21 + pl], b[ul + 1..ul + 20])
    ensures b[ul + 1..ul + 20][0] == 0 && b[ul + 1..ul + 20][1] == VersionMajor && b[ul + 1..ul + 20][2] == VersionMinor
    ensures b == ([|b[1..ul + 1]| as u8] + b[1..ul + 1]) + b[ul + 1..ul + 20] +
      ([|b[ul + 21..ul + 21 + pl]| as u8] + b[ul + 21..ul + 21 + pl] + [0, 0])
  {
    assert b[ul + 21 + pl..] == [0, 0];
    Slices(b, ul + 1, ul + 20, ul + 21 + pl);
  }

  /** A sequence cut into a head, two slices, a separator, a slice and a tail. */
  lemma Slices<T>(b: seq<T>, i: nat, j: nat, k: nat)
    requires 1 <= i <= j < k <= |b|
    ensures b == ([b[0]] + b[1..i]) + b[i..j] + ([b[j]] + b[j + 1..k] + b[k..])
  {
    assert b == b[..i] + b[i..];
    assert b[..i] == [b[0]] + b[1..i];
    assert b[i..] == b[i..j] + b[j..];
    assert b[j..] == [b[j]] + b[j + 1..k] + b[k..];
  }

  /** The hello message of a user name, a password and a settings block read back from them. */
  lemma HelloOfPieces(user: seq<u8>, pwd: seq<u8>, m: seq<u8>)
    requires |user| < 256 && |pwd| < 256
    requires |m| == SettingsLength && m[0] == 0 && m[1] == VersionMajor && m[2] == VersionMinor
    ensures HelloBytes(FieldsOf(user, pwd, m)) == ([|user| as u8] + user) + m + ([|pwd| as u8] + pwd + [0, 0])
  {
    var h := FieldsOf(user, pwd, m);
    assert UserLen(h) == |user| && PwdLen(h) == |pwd|;
    assert user[..|user|] == user && pwd[..|pwd|] == pwd;
    SettingsInverse(user, pwd, m);
  }

  /** `memcpy(a + off, src, |src|)`. */
  method CopyBytes(a: array<u8>, off: nat, src: seq<u8>)
    requires off + |src| <= a.Length
    modifies a
    ensures forall i :: 0 <= i < a.Length ==>
      a[i] == if off <= i < off + |src| then src[i - off] else old(a[i])
  {
    var k := 0;
    while k < |src|
      invariant 0 <= k <= |src|
      invariant forall i :: 0 <= i < a.Length ==>
        a[i] == if off <= i < off + k then src[i - off] else old(a[i])
    {
      a[off + k] := src[k];
      k := k + 1;
    }
  }

  /**
   * The writes of `send_hello` after the user name: the separator, the
   * version, thread count and fee one byte each, then the 2- and 4-byte
   * stores, all relative to off = user_len + 1.
   */
  method WriteSettings(a: array<u8>, off: nat, h: HelloFields)
    requires off + SettingsLength <= a.Length
    modifies a
    ensures forall i :: 0 <= i < a.Length ==>
      a[i] == if off <= i < off + SettingsLength then Settings(h)[i - off] else old(a[i])
  {
    a[off] := 0;
    a[off + 1] := VersionMajor;
    a[off + 2] := VersionMinor;
    a[off + 3] := h.threads;
    a[off + 4] := h.fee;
    LELength(h.minerId as nat, 2);
    LELength(h.extensions as nat, 4);
    LELength(h.percentage as nat, 4);
    LELength(h.sieveSize as nat, 4);
    CopyBytes(a, off + 5, LE(h.minerId as nat, 2));
    CopyBytes(a, off + 7, LE(h.extensions as nat, 4));
    CopyBytes(a, off + 11, LE(h.percentage as nat, 4));
    CopyBytes(a, off + 15, LE(h.sieveSize as nat, 4));
    SettingsLayout(h);
    var m := Settings(h);
    forall i | off <= i < off + SettingsLength
      ensures a[i] == m[i - off]
    {
      if 5 <= i - off < 7 {
        assert m[i - off] == m[5..7][i - off - 5];
      } else if 7 <= i - off < 11 {
        assert m[i - off] == m[7..11][i - off - 7];
      } else if 11 <= i - off < 15 {
        assert m[i - off] == m[11..15][i - off - 11];
      } else if 15 <= i - off {
        assert m[i - off] == m[15..19][i - off - 15];
      }
    }
  }

  /**
   * The buffer `send_hello` fills before sending it: calloc'd, the two
   * strings copied in, then every other value written at its offset.
   */
  method SendHello(h: HelloFields) returns (hello: seq<u8>)
    ensures hello == HelloBytes(h)
  {
    var ul := |h.user| % 256;
    var pl := |h.pwd| % 256;
    var a := new u8[ul + 23 + pl](_ => 0);
    CopyStrings(a, h);
    a[0] := ul as u8;
    WriteSettings(a, ul + 1, h);
    a[ul + 20] := pl as u8;
    CopyBytes(a, ul + 21 + pl, LE(0, 2));
    hello := a[..];
    assert LE(0, 2) == [0, 0];
    HelloFromBytes(h, hello);
  }

  /** The two `memcpy` calls of `send_hello`: the user name from 1, the password from user_len + 21. */
  method CopyStrings(a: array<u8>, h: HelloFields)
    requires a.Length == UserLen(h) + 23 + PwdLen(h)
    modifies a
    ensures forall i :: 0 <= i < a.Length ==>
      a[i] == if 1 <= i < UserLen(h) + 1 then h.user[i - 1]
              else if UserLen(h) + 21 <= i < UserLen(h) + 21 + PwdLen(h) then h.pwd[i - UserLen(h) - 21]
              else old(a[i])
  {
    var ul, pl := UserLen(h), PwdLen(h);
    CopyBytes(a, 1, h.user[..ul]);
    CopyBytes(a, ul + 21, h.pwd[..pl]);
  }

  /** A buffer with every part of the hello layout in place is the hello message. */
  lemma HelloFromBytes(h: HelloFields, s: seq<u8>)
    requires |s| == UserLen(h) + 23 + PwdLen(h) && s[0] as nat == UserLen(h)
    requires forall i :: 1 <= i < UserLen(h) + 1 ==> s[i] == h.user[i - 1]
    requires forall i :: UserLen(h) + 1 <= i < UserLen(h) + 20 ==> s[i] == Settings(h)[i - UserLen(h) - 1]
    requires s[UserLen(h) + 20] as nat == PwdLen(h)
    requires forall i :: UserLen(h) + 21 <= i < UserLen(h) + 21 + PwdLen(h) ==> s[i] == h.pwd[i - UserLen(h) - 21]
    requires s[UserLen(h) + 21 + PwdLen(h)] == 0 && s[UserLen(h) + 22 + PwdLen(h)] == 0
    ensures s == HelloBytes(h)
  {
    var ul, pl := UserLen(h), PwdLen(h);
    SliceIs(s, 1, h.user[..ul]);
    SliceIs(s, ul + 1, Settings(h));
    SliceIs(s, ul + 21, h.pwd[..pl]);
    assert s[ul + 21 + pl..] == [0, 0];
    Slices(s, ul + 1, ul + 20, ul + 21 + pl);
  }

  /** A run of bytes that agrees with src element by element is src. */
  lemma SliceIs(s: seq<u8>, lo: nat, src: seq<u8>)
    requires lo + |src| <= |s| && forall i :: lo <= i < lo + |src| ==> s[i] == src[i - lo]
    ensures s[lo..lo + |src|] == src
  {
  }

  /** LE(v, n) always has n bytes. */
  lemma {:induction false} LELength(v: nat, n: nat)
    ensures |LE(v, n)| == n
  {
    if n > 0 {
      LELength(v / 256, n - 1);
    }
  }
}
