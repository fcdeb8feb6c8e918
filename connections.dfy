/** The connection registry: the socket records held in the inbound and outbound lists,
    the deduplicating enumeration `peers()` and the removal `_cleanup(socket)`.

    `peers()` walks inbound followed by outbound once, keeping two arrays in its closure:
    `handles` (file descriptors seen) and `addresses` (`address:port` keys seen). Its
    handle test looks up the variable `url`, which at that point of the callback is still
    undefined (it is a hoisted `var` assigned only further down), so a socket is dropped
    by the handle test exactly when some earlier socket pushed an undefined descriptor.
    `Dedup` is the walk; `Kept` is an independent description of which sockets survive,
    and `DedupIsKept` proves that the two agree. */
module Connections {

  import opened Wrappers
  import opened Js

  /** What `socket.address()` reports about the local end: an address and a port number,
      or `{}` for a socket that is not bound yet, whose `address` and `port` are both
      undefined. */
  datatype Addr = Addr(address: string, port: nat) | Unbound

  /** The file descriptor of a socket's `_handle`, which may be undefined. */
  datatype Fd = FdNum(n: int) | FdUndefined

  /** A socket as the registry sees it. `id` stands for the object's identity;
      `handle` is None when the socket has no `_handle`; `addr` is None when
      `socket.address()` is falsy. */
  datatype Conn = Conn(
    id: nat,
    connecting: bool,
    addr: Option<Addr>,
    handle: Option<Fd>,
    remoteAddress: string,
    remotePort: int)

  /** The descriptor `_handle.fd` reports before the socket is opened. */
  const UnopenedFd: Fd := FdNum(-1)

  /** The record of a socket that `net.connect` has just returned: still connecting, with
      a `_handle` (created on the spot) whose descriptor is not open yet, and an
      `address()` of `{}`, which is truthy. The remote fields are read only for sockets
      that are no longer connecting. */
  function Dialing(id: nat): (c: Conn)
    ensures c.id == id && c.connecting
    ensures c.addr == Some(Unbound) && c.handle == Some(UnopenedFd)
  {
    Conn(id, true, Some(Unbound), Some(UnopenedFd), "", 0)
  }

  /** The deduplication key `address + ':' + port`; for `{}` it is "undefined:undefined". */
  function Key(a: Addr): string
  {
    match a
    case Addr(address, port) => address + ":" + Decimal(port)
    case Unbound => "undefined" + ":" + "undefined"
  }

  /** The key is injective: port numerals contain no ':', so splitting at the last ':'
      recovers the address and the port (IPv6 addresses with their own colons included),
      and "undefined" is not a numeral. */
  lemma KeyInjective(a: Addr, b: Addr)
    ensures Key(a) == Key(b) ==> a == b
  {
    if Key(a) == Key(b) {
      var ha, pa := if a.Addr? then a.address else "undefined", if a.Addr? then Decimal(a.port) else "undefined";
      var hb, pb := if b.Addr? then b.address else "undefined", if b.Addr? then Decimal(b.port) else "undefined";
      assert Key(a) == ha + ":" + pa && Key(b) == hb + ":" + pb;
      assert ':' !in pa && ':' !in pb;
      LastSeparator(ha, pa, hb, pb, ':');
      assert !IsDigit("undefined"[0]);
      if a.Addr? && b.Addr? {
        DecimalInjective(a.port, b.port);
      }
    }
  }

  // ---------------------------------------------------------------------------
  // peers(): the walk

  /** The closure arrays of `peers()`. */
  datatype Seen = Seen(handles: seq<Fd>, addresses: seq<string>)

  /** What one call of the filter callback returns, and the closure arrays after it. */
  datatype Verdict = Verdict(keep: bool, seen: Seen)

  /** One call of the filter callback on `c`. */
  function Visit(c: Conn, seen: Seen): Verdict
  {
    if c.handle.Some? && FdUndefined in seen.handles then
      // handles.indexOf(url) with url still undefined: found an undefined descriptor
      Verdict(false, seen)
    else
      var s1 := if c.handle.Some? then seen.(handles := seen.handles + [c.handle.value]) else seen;
      if c.addr.None? then Verdict(true, s1)
      else if Key(c.addr.value) in s1.addresses then Verdict(false, s1)
      else Verdict(true, s1.(addresses := s1.addresses + [Key(c.addr.value)]))
  }

  /** The filter over `cs` starting from the closure arrays `seen`. */
  function DedupFrom(cs: seq<Conn>, seen: Seen): seq<Conn>
    decreases |cs|
  {
    if cs == [] then []
    else
      var v := Visit(cs[0], seen);
      (if v.keep then [cs[0]] else []) + DedupFrom(cs[1..], v.seen)
  }

  /** `peers()` over the concatenation `cs` of inbound and outbound. */
  function Dedup(cs: seq<Conn>): seq<Conn>
  {
    DedupFrom(cs, Seen([], []))
  }

  // ---------------------------------------------------------------------------
  // peers(): which sockets survive, stated without the closure arrays

  /** Some socket before position `j` has an undefined descriptor. */
  ghost predicate Poisoned(cs: seq<Conn>, j: nat)
    requires j <= |cs|
    decreases j
  {
    j > 0 && (Poisoned(cs, j - 1) || cs[j - 1].handle == Some(FdUndefined))
  }

  /** The socket at `j` survives the handle test: it has no handle, or no earlier socket
      had an undefined descriptor. */
  ghost predicate PassesHandle(cs: seq<Conn>, j: nat)
    requires j < |cs|
  {
    cs[j].handle.None? || !Poisoned(cs, j)
  }

  /** The socket at `i` survives the handle test and has the address `a` (so the walk
      records the key of `a` for it). */
  ghost predicate Claims(cs: seq<Conn>, i: nat, a: Addr)
    requires i < |cs|
  {
    PassesHandle(cs, i) && cs[i].addr == Some(a)
  }

  /** Some socket before position `j` claims the address `a`. */
  ghost predicate ClaimedBefore(cs: seq<Conn>, j: nat, a: Addr)
    requires j <= |cs|
    decreases j
  {
    j > 0 && (ClaimedBefore(cs, j - 1, a) || Claims(cs, j - 1, a))
  }

  /** The socket at `j` is returned by `peers()`: it survives the handle test, and either
      has no address or is the first survivor of the handle test with its address. Keys
      are compared as addresses, which `KeyInjective` justifies. */
  ghost predicate Kept(cs: seq<Conn>, j: nat)
    requires j < |cs|
  {
    PassesHandle(cs, j) && (cs[j].addr.None? || !ClaimedBefore(cs, j, cs[j].addr.value))
  }

  /** The sockets from position `k` on that are kept, in order. */
  ghost function KeptFrom(cs: seq<Conn>, k: nat): seq<Conn>
    decreases |cs| - k
  {
    if k >= |cs| then [] else (if Kept(cs, k) then [cs[k]] else []) + KeptFrom(cs, k + 1)
  }

  /** The closure arrays after the first `k` sockets, described by what they contain. */
  ghost predicate SeenAt(cs: seq<Conn>, k: nat, seen: Seen)
    requires k <= |cs|
  {
    (FdUndefined in seen.handles <==> Poisoned(cs, k)) &&
    (forall a :: Key(a) in seen.addresses <==> ClaimedBefore(cs, k, a))
  }

  /** One callback call agrees with `Kept` and keeps the description of the arrays. */
  lemma VisitStep(cs: seq<Conn>, k: nat, seen: Seen)
    requires k < |cs| && SeenAt(cs, k, seen)
    ensures Visit(cs[k], seen).keep == Kept(cs, k)
    ensures SeenAt(cs, k + 1, Visit(cs[k], seen).seen)
  {
    var c := cs[k];
    assert Poisoned(cs, k + 1) <==> Poisoned(cs, k) || c.handle == Some(FdUndefined);
    assert forall a :: ClaimedBefore(cs, k + 1, a) <==> ClaimedBefore(cs, k, a) || Claims(cs, k, a);
    if c.addr.Some? && Visit(c, seen).keep {
      forall a ensures Key(a) == Key(c.addr.value) <==> a == c.addr.value {
        KeyInjective(a, c.addr.value);
      }
    }
  }

  /** The walk from position `k` returns exactly the kept sockets from `k` on. */
  lemma {:induction false} DedupFromKept(cs: seq<Conn>, k: nat, seen: Seen)
    requires k <= |cs| && SeenAt(cs, k, seen)
    ensures DedupFrom(cs[k..], seen) == KeptFrom(cs, k)
    decreases |cs| - k
  {
    if k < |cs| {
      VisitStep(cs, k, seen);
      assert cs[k..][0] == cs[k] && cs[k..][1..] == cs[k + 1..];
      DedupFromKept(cs, k + 1, Visit(cs[k], seen).seen);
    }
  }

  /** `peers()` returns exactly the sockets that `Kept` describes, in their order. */
  lemma DedupIsKept(cs: seq<Conn>)
    ensures Dedup(cs) == KeptFrom(cs, 0)
  {
    assert SeenAt(cs, 0, Seen([], []));
    assert cs[0..] == cs;
    DedupFromKept(cs, 0, Seen([], []));
  }

  // ---------------------------------------------------------------------------
  // peers(): consequences

  /** `a` is `b` with some elements left out, in order. */
  predicate IsSubsequence<T(==)>(a: seq<T>, b: seq<T>)
    decreases |b|
  {
    a == [] || (b != [] && ((a[0] == b[0] && IsSubsequence(a[1..], b[1..])) || IsSubsequence(a, b[1..])))
  }

  lemma {:induction false} KeptFromMembers(cs: seq<Conn>, k: nat, n: nat)
    requires n < |KeptFrom(cs, k)|
    ensures exists j :: k <= j < |cs| && Kept(cs, j) && KeptFrom(cs, k)[n] == cs[j]
    decreases |cs| - k
  {
    if k < |cs| {
      if Kept(cs, k) && n == 0 {
        assert KeptFrom(cs, k)[0] == cs[k];
      } else {
        var m := if Kept(cs, k) then n - 1 else n;
        assert KeptFrom(cs, k)[n] == KeptFrom(cs, k + 1)[m];
        KeptFromMembers(cs, k + 1, m);
      }
    }
  }

  /** Every kept socket is in the result. */
  lemma {:induction false} KeptInKeptFrom(cs: seq<Conn>, k: nat, j: nat)
    requires k <= j < |cs| && Kept(cs, j)
    ensures cs[j] in KeptFrom(cs, k)
    decreases j - k
  {
    KeptFromUnfold(cs, k);
    if k < j {
      KeptInKeptFrom(cs, k + 1, j);
    }
  }

  /** The kept sockets from `k` are the socket at `k` when it is kept, then those from `k + 1`. */
  lemma KeptFromUnfold(cs: seq<Conn>, k: nat)
    requires k < |cs|
    ensures KeptFrom(cs, k) == (if Kept(cs, k) then [cs[k]] else []) + KeptFrom(cs, k + 1)
  {
  }

  lemma {:induction false} KeptFromSubsequence(cs: seq<Conn>, k: nat)
    requires k <= |cs|
    ensures IsSubsequence(KeptFrom(cs, k), cs[k..])
    decreases |cs| - k
  {
    if k < |cs| {
      KeptFromSubsequence(cs, k + 1);
      assert cs[k..][0] == cs[k] && cs[k..][1..] == cs[k + 1..];
      if Kept(cs, k) {
        var r := [cs[k]] + KeptFrom(cs, k + 1);
        assert KeptFrom(cs, k) == r;
        assert r[0] == cs[k..][0] && r[1..] == KeptFrom(cs, k + 1);
      } else {
        assert KeptFrom(cs, k) == KeptFrom(cs, k + 1);
      }
    }
  }

  /** `peers()` returns a subsequence of inbound followed by outbound. */
  lemma PeersSubsequence(cs: seq<Conn>)
    ensures IsSubsequence(Dedup(cs), cs)
  {
    DedupIsKept(cs);
    KeptFromSubsequence(cs, 0);
    assert cs[0..] == cs;
  }

  /** No two returned sockets with an address share the key `address:port`. */
  lemma PeersUniqueKeys(cs: seq<Conn>)
    ensures var r := Dedup(cs);
      forall m, n :: 0 <= m < n < |r| && r[m].addr.Some? && r[n].addr.Some? ==>
        Key(r[m].addr.value) != Key(r[n].addr.value)
  {
    DedupIsKept(cs);
    var r := KeptFrom(cs, 0);
    forall m, n | 0 <= m < n < |r| && r[m].addr.Some? && r[n].addr.Some?
      ensures Key(r[m].addr.value) != Key(r[n].addr.value)
    {
      KeptAddressesDistinct(cs, 0, m, n);
      KeyInjective(r[m].addr.value, r[n].addr.value);
    }
  }

  /** Two returned sockets that have an address have different addresses. */
  lemma {:induction false} KeptAddressesDistinct(cs: seq<Conn>, k: nat, m: nat, n: nat)
    requires m < n < |KeptFrom(cs, k)|
    requires KeptFrom(cs, k)[m].addr.Some? && KeptFrom(cs, k)[n].addr.Some?
    ensures KeptFrom(cs, k)[m].addr != KeptFrom(cs, k)[n].addr
    decreases |cs| - k
  {
    if k < |cs| {
      if Kept(cs, k) && m == 0 {
        HeadKeyUnclaimed(cs, k, n);
      } else {
        var d := if Kept(cs, k) then 1 else 0;
        KeptFromIndex(cs, k, m);
        KeptFromIndex(cs, k, n);
        KeptAddressesDistinct(cs, k + 1, m - d, n - d);
      }
    }
  }

  /** Past the socket at `k`, the kept sockets from `k` are those from `k + 1`. */
  lemma KeptFromIndex(cs: seq<Conn>, k: nat, m: nat)
    requires k < |cs| && m < |KeptFrom(cs, k)| && !(Kept(cs, k) && m == 0)
    ensures var d := if Kept(cs, k) then 1 else 0;
      d <= m && m - d < |KeptFrom(cs, k + 1)| && KeptFrom(cs, k)[m] == KeptFrom(cs, k + 1)[m - d]
  {
    var b := Kept(cs, k);
    var head: seq<Conn> := if b then [cs[k]] else [];
    KeptFromUnfold(cs, k);
    ConcatIndex(KeptFrom(cs, k), head, KeptFrom(cs, k + 1), m);
  }

  lemma ConcatIndex<T>(r: seq<T>, head: seq<T>, rest: seq<T>, m: nat)
    requires r == head + rest && |head| <= m < |r|
    ensures m - |head| < |rest| && r[m] == rest[m - |head|]
  {
  }

  /** A kept socket's address is not the address of any later kept socket. */
  lemma HeadKeyUnclaimed(cs: seq<Conn>, k: nat, n: nat)
    requires k < |cs| && Kept(cs, k) && 0 < n < |KeptFrom(cs, k)|
    requires KeptFrom(cs, k)[0].addr.Some? && KeptFrom(cs, k)[n].addr.Some?
    ensures KeptFrom(cs, k)[0].addr != KeptFrom(cs, k)[n].addr
  {
    var r := KeptFrom(cs, k);
    KeptFromIndex(cs, k, n);
    assert r == [cs[k]] + KeptFrom(cs, k + 1);
    assert r[0] == cs[k];
    KeptFromMembers(cs, k + 1, n - 1);
    var j :| k + 1 <= j < |cs| && Kept(cs, j) && KeptFrom(cs, k + 1)[n - 1] == cs[j];
    if cs[k].addr == cs[j].addr {
      ClaimPersists(cs, k, j, cs[j].addr.value);
    }
  }

  /** A claim stays recorded for every later position. */
  lemma {:induction false} ClaimPersists(cs: seq<Conn>, i: nat, j: nat, a: Addr)
    requires i < j <= |cs| && Claims(cs, i, a)
    ensures ClaimedBefore(cs, j, a)
    decreases j
  {
    if j > i + 1 {
      ClaimPersists(cs, i, j - 1, a);
    }
  }

  /** An undefined descriptor poisons every later position. */
  lemma {:induction false} PoisonPersists(cs: seq<Conn>, i: nat, j: nat)
    requires i < j <= |cs| && cs[i].handle == Some(FdUndefined)
    ensures Poisoned(cs, j)
    decreases j
  {
    if j > i + 1 {
      PoisonPersists(cs, i, j - 1);
    }
  }

  /** No socket has an undefined descriptor. */
  ghost predicate AllFdsDefined(cs: seq<Conn>)
  {
    forall i :: 0 <= i < |cs| ==> cs[i].handle != Some(FdUndefined)
  }

  /** When no descriptor is undefined, no position is poisoned. */
  lemma {:induction false} NeverPoisoned(cs: seq<Conn>, j: nat)
    requires AllFdsDefined(cs) && j <= |cs|
    ensures !Poisoned(cs, j)
    decreases j
  {
    if j > 0 {
      NeverPoisoned(cs, j - 1);
    }
  }

  /** When no descriptor is undefined, an address is claimed before `j` exactly when some
      earlier socket has it. */
  lemma {:induction false} ClaimedBeforeIff(cs: seq<Conn>, j: nat, a: Addr)
    requires AllFdsDefined(cs) && j <= |cs|
    ensures ClaimedBefore(cs, j, a) <==> exists i :: 0 <= i < j && cs[i].addr == Some(a)
    decreases j
  {
    if j > 0 {
      ClaimedBeforeIff(cs, j - 1, a);
      NeverPoisoned(cs, j - 1);
      if cs[j - 1].addr == Some(a) {
        assert Claims(cs, j - 1, a);
      }
      if exists i :: 0 <= i < j && cs[i].addr == Some(a) {
        var i :| 0 <= i < j && cs[i].addr == Some(a);
        if i < j - 1 {
          assert exists i' :: 0 <= i' < j - 1 && cs[i'].addr == Some(a);
        }
      }
    }
  }

  /** When no descriptor is undefined the handle test rejects nothing: a socket is kept
      exactly when it has no address or no earlier socket has its address. */
  lemma HandleTestInert(cs: seq<Conn>, j: nat)
    requires AllFdsDefined(cs) && j < |cs|
    ensures PassesHandle(cs, j)
    ensures Kept(cs, j) <==> cs[j].addr.None? || forall i :: 0 <= i < j ==> cs[i].addr != cs[j].addr
  {
    NeverPoisoned(cs, j);
    if cs[j].addr.Some? {
      ClaimedBeforeIff(cs, j, cs[j].addr.value);
    }
  }

  /** A socket whose `address()` is falsy is never dropped by the address test: it is kept
      exactly when it survives the handle test. */
  lemma NoAddressNeverDroppedByAddress(cs: seq<Conn>, j: nat)
    requires j < |cs| && cs[j].addr.None?
    ensures cs[j] in Dedup(cs) <== PassesHandle(cs, j)
  {
    DedupIsKept(cs);
    if PassesHandle(cs, j) {
      KeptInKeptFrom(cs, 0, j);
    }
  }

  /** Once a socket with an undefined descriptor has been seen, every later socket with a
      handle is dropped. */
  lemma UndefinedFdPoisons(cs: seq<Conn>, i: nat, j: nat)
    requires i < j < |cs| && cs[i].handle == Some(FdUndefined) && cs[j].handle.Some?
    ensures !Kept(cs, j)
  {
    PoisonPersists(cs, i, j);
  }

  /** The handle test does not deduplicate by descriptor: two sockets sharing descriptor 7
      and reporting no address are both returned. */
  lemma SharedFdNotDeduplicated()
    ensures
      var a := Conn(1, false, None, Some(FdNum(7)), "10.0.0.1", 4000);
      var b := Conn(2, false, None, Some(FdNum(7)), "10.0.0.2", 4000);
      Dedup([a, b]) == [a, b]
  {
  }

  /** With every descriptor defined, each address present in the input is present in the
      result (the first socket with that key is returned). Together with `PeersUniqueKeys`
      and `KeyInjective` this gives exactly one returned socket per distinct address. */
  lemma {:induction false} PeersCoverAddresses(cs: seq<Conn>, j: nat)
    requires AllFdsDefined(cs) && j < |cs| && cs[j].addr.Some?
    ensures exists i :: 0 <= i < |Dedup(cs)| && Dedup(cs)[i].addr == cs[j].addr
    decreases j
  {
    HandleTestInert(cs, j);
    if Kept(cs, j) {
      DedupIsKept(cs);
      KeptInKeptFrom(cs, 0, j);
      var i :| 0 <= i < |Dedup(cs)| && Dedup(cs)[i] == cs[j];
    } else {
      var i :| 0 <= i < j && cs[i].addr == cs[j].addr;
      PeersCoverAddresses(cs, i);
    }
  }

  /** Sockets that all report `{}` as their address, such as sockets still connecting,
      share the key "undefined:undefined": `peers()` returns only the first of them. */
  lemma UnboundCollapse(cs: seq<Conn>)
    requires AllFdsDefined(cs)
    requires forall i :: 0 <= i < |cs| ==> cs[i].addr == Some(Unbound)
    ensures Dedup(cs) == (if cs == [] then [] else [cs[0]])
  {
    DedupIsKept(cs);
    if cs != [] {
      HandleTestInert(cs, 0);
      KeptFromUnfold(cs, 0);
      UnboundNoneKeptAfterFirst(cs, 1);
    }
  }

  lemma {:induction false} UnboundNoneKeptAfterFirst(cs: seq<Conn>, k: nat)
    requires AllFdsDefined(cs) && 1 <= k
    requires forall i :: 0 <= i < |cs| ==> cs[i].addr == Some(Unbound)
    ensures KeptFrom(cs, k) == []
    decreases |cs| - k
  {
    if k < |cs| {
      HandleTestInert(cs, k);
      assert cs[0].addr == cs[k].addr;
      KeptFromUnfold(cs, k);
      UnboundNoneKeptAfterFirst(cs, k + 1);
    }
  }

  /** Sockets just returned by `net.connect` are collapsed to the first by `peers()`. */
  lemma DialingCollapse(a: nat, b: nat)
    ensures Dedup([Dialing(a), Dialing(b)]) == [Dialing(a)]
  {
    UnboundCollapse([Dialing(a), Dialing(b)]);
  }

  // ---------------------------------------------------------------------------
  // Socket identities

  /** Every socket's identity is below `next`, and no identity occurs twice. */
  predicate IdsFresh(cs: seq<Conn>, next: nat)
  {
    (forall i :: 0 <= i < |cs| ==> cs[i].id < next) &&
    (forall i, j :: 0 <= i < j < |cs| ==> cs[i].id != cs[j].id)
  }

  /** A socket with the next identity can be added anywhere. */
  lemma IdsFreshInsert(a: seq<Conn>, b: seq<Conn>, c: Conn, n: nat)
    requires IdsFresh(a + b, n) && c.id == n
    ensures IdsFresh(a + [c] + b, n + 1)
  {
    var x, y := a + [c] + b, a + b;
    forall i | 0 <= i < |x| ensures x[i] == Shifted(y, |a|, c, i) && x[i].id <= n {
      if i < |a| {
        assert x[i] == a[i] == y[i];
      } else if i > |a| {
        assert x[i] == b[i - |a| - 1] == y[i - 1];
      }
    }
    forall i, j | 0 <= i < j < |x| ensures x[i].id != x[j].id {
      assert x[i] == Shifted(y, |a|, c, i) && x[j] == Shifted(y, |a|, c, j);
    }
  }

  /** Position `i` of `y` with `c` inserted at position `k`. */
  function Shifted(y: seq<Conn>, k: nat, c: Conn, i: nat): Conn
    requires k <= |y| && i <= |y|
  {
    if i < k then y[i] else if i == k then c else y[i - 1]
  }

  /** Both halves of a list with fresh identities have fresh identities. */
  lemma IdsFreshSplit(a: seq<Conn>, b: seq<Conn>, n: nat)
    requires IdsFresh(a + b, n)
    ensures IdsFresh(a, n) && IdsFresh(b, n)
  {
    var y := a + b;
    assert forall i :: 0 <= i < |a| ==> a[i] == y[i];
    assert forall i :: 0 <= i < |b| ==> b[i] == y[|a| + i];
  }

  lemma {:induction false} SubsequenceMembers<T>(x: seq<T>, y: seq<T>)
    requires IsSubsequence(x, y)
    ensures forall k :: 0 <= k < |x| ==> x[k] in y
    decreases |y|
  {
    if x != [] {
      if x[0] == y[0] && IsSubsequence(x[1..], y[1..]) {
        SubsequenceMembers(x[1..], y[1..]);
        forall k | 1 <= k < |x| ensures x[k] in y {
          assert x[k] == x[1..][k - 1];
          assert x[k] in y[1..];
        }
      } else {
        SubsequenceMembers(x, y[1..]);
      }
    }
  }

  /** Leaving sockets out keeps the identities fresh. */
  lemma {:induction false} SubsequenceIdsFresh(x: seq<Conn>, y: seq<Conn>, n: nat)
    requires IsSubsequence(x, y) && IdsFresh(y, n)
    ensures IdsFresh(x, n)
    decreases |y|
  {
    if x != [] {
      IdsFreshSplit([y[0]], y[1..], n);
      assert [y[0]] + y[1..] == y;
      if x[0] == y[0] && IsSubsequence(x[1..], y[1..]) {
        SubsequenceIdsFresh(x[1..], y[1..], n);
        SubsequenceMembers(x[1..], y[1..]);
        forall k | 1 <= k < |x| ensures x[k].id != x[0].id && x[k] == x[1..][k - 1] {
          assert x[k] == x[1..][k - 1];
          var j :| 0 <= j < |y[1..]| && y[1..][j] == x[k];
          assert y[j + 1] == x[k];
        }
      } else {
        SubsequenceIdsFresh(x, y[1..], n);
      }
    }
  }

  lemma {:induction false} SubsequenceDropPrefix<T>(x: seq<T>, y1: seq<T>, y2: seq<T>)
    requires IsSubsequence(x, y2)
    ensures IsSubsequence(x, y1 + y2)
    decreases |y1|
  {
    if y1 == [] {
      assert y1 + y2 == y2;
    } else if x != [] {
      SubsequenceDropPrefix(x, y1[1..], y2);
      assert (y1 + y2)[1..] == y1[1..] + y2;
    }
  }

  /** Subsequences of two lists concatenate to a subsequence of their concatenation. */
  lemma {:induction false} SubsequenceConcat<T>(x1: seq<T>, y1: seq<T>, x2: seq<T>, y2: seq<T>)
    requires IsSubsequence(x1, y1) && IsSubsequence(x2, y2)
    ensures IsSubsequence(x1 + x2, y1 + y2)
    decreases |y1|
  {
    if x1 == [] {
      assert x1 + x2 == x2;
      SubsequenceDropPrefix(x2, y1, y2);
    } else {
      assert (y1 + y2)[0] == y1[0] && (y1 + y2)[1..] == y1[1..] + y2;
      if x1[0] == y1[0] && IsSubsequence(x1[1..], y1[1..]) {
        SubsequenceConcat(x1[1..], y1[1..], x2, y2);
        assert (x1 + x2)[0] == x1[0] && (x1 + x2)[1..] == x1[1..] + x2;
      } else {
        SubsequenceConcat(x1, y1[1..], x2, y2);
      }
    }
  }

  // ---------------------------------------------------------------------------
  // The connect handshake

  /** The outbound list once the socket `id` has finished connecting: its record is no
      longer connecting and reports its local address, its open descriptor and its
      remote end; every other record is unchanged. */
  function Establish(list: seq<Conn>, id: nat, local: Addr, fd: int, remoteAddress: string, remotePort: int): (r: seq<Conn>)
    ensures |r| == |list|
    ensures forall i :: 0 <= i < |r| ==> r[i].id == list[i].id
    ensures forall i :: 0 <= i < |r| && list[i].id != id ==> r[i] == list[i]
    ensures forall i :: 0 <= i < |r| && list[i].id == id ==>
      !r[i].connecting && r[i].addr == Some(local) && r[i].handle == Some(FdNum(fd)) &&
      r[i].remoteAddress == remoteAddress && r[i].remotePort == remotePort
  {
    seq(|list|, i requires 0 <= i < |list| =>
      if list[i].id == id then Conn(id, false, Some(local), Some(FdNum(fd)), remoteAddress, remotePort) else list[i])
  }

  /** Establishing a socket keeps the identities fresh. */
  lemma EstablishIdsFresh(a: seq<Conn>, b: seq<Conn>, id: nat, local: Addr, fd: int, remoteAddress: string, remotePort: int, n: nat)
    requires IdsFresh(a + b, n)
    ensures IdsFresh(a + Establish(b, id, local, fd, remoteAddress, remotePort), n)
  {
    var e := Establish(b, id, local, fd, remoteAddress, remotePort);
    var x, y := a + e, a + b;
    forall i | 0 <= i < |x| ensures x[i].id == y[i].id {
      if i >= |a| {
        assert x[i] == e[i - |a|] && y[i] == b[i - |a|];
      }
    }
  }

  // ---------------------------------------------------------------------------
  // _cleanup(socket)

  /** The list after `list.forEach((sock, i) => { if (sock === socket) list.splice(i, 1) })`:
      each removal shifts the next element into the visited slot, so that element is not
      looked at. */
  function Cleanup(list: seq<Conn>, id: nat): seq<Conn>
    decreases |list|
  {
    if list == [] then []
    else if list[0].id == id then (if |list| == 1 then [] else [list[1]] + Cleanup(list[2..], id))
    else [list[0]] + Cleanup(list[1..], id)
  }

  /** The list without any socket of identity `id`. */
  function Without(list: seq<Conn>, id: nat): (r: seq<Conn>)
    ensures forall i :: 0 <= i < |r| ==> r[i].id != id
    decreases |list|
  {
    if list == [] then []
    else (if list[0].id == id then [] else [list[0]]) + Without(list[1..], id)
  }

  lemma WithoutPrepend(x: Conn, t: seq<Conn>, id: nat)
    ensures Without([x] + t, id) == (if x.id == id then [] else [x]) + Without(t, id)
  {
    assert ([x] + t)[1..] == t;
  }

  /** `_cleanup` keeps every other socket, in its original relative order, and removes
      only sockets of identity `id`. */
  lemma {:induction false} CleanupKeepsOthers(list: seq<Conn>, id: nat)
    ensures Without(Cleanup(list, id), id) == Without(list, id)
    ensures IsSubsequence(Cleanup(list, id), list)
    decreases |list|
  {
    if list != [] {
      if list[0].id == id {
        if |list| > 1 {
          CleanupKeepsOthers(list[2..], id);
          WithoutPrepend(list[1], Cleanup(list[2..], id), id);
          assert list[1..] == [list[1]] + list[2..];
          WithoutPrepend(list[1], list[2..], id);
          assert list[1..][1..] == list[2..];
          assert IsSubsequence(Cleanup(list, id), list[1..]);
        }
      } else {
        CleanupKeepsOthers(list[1..], id);
        WithoutPrepend(list[0], Cleanup(list[1..], id), id);
        assert ([list[0]] + Cleanup(list[1..], id))[1..] == Cleanup(list[1..], id);
      }
    }
  }

  /** No two adjacent sockets both have identity `id`. */
  predicate NoAdjacent(list: seq<Conn>, id: nat)
  {
    forall i :: 0 <= i < |list| - 1 ==> !(list[i].id == id && list[i + 1].id == id)
  }

  /** Identity `id` occurs at most once. */
  predicate AtMostOnce(list: seq<Conn>, id: nat)
  {
    forall i, j :: 0 <= i < j < |list| && list[i].id == id ==> list[j].id != id
  }

  /** If the socket never occurs twice in a row, `_cleanup` removes every occurrence. */
  lemma {:induction false} CleanupRemovesAll(list: seq<Conn>, id: nat)
    requires NoAdjacent(list, id)
    ensures Cleanup(list, id) == Without(list, id)
    ensures forall i :: 0 <= i < |Cleanup(list, id)| ==> Cleanup(list, id)[i].id != id
    decreases |list|
  {
    if list != [] {
      if list[0].id == id {
        if |list| > 1 {
          assert list[1].id != id;
          assert NoAdjacent(list[2..], id) by {
            forall i | 0 <= i < |list[2..]| - 1 ensures !(list[2..][i].id == id && list[2..][i + 1].id == id) {
              assert list[2..][i] == list[i + 2] && list[2..][i + 1] == list[i + 3];
            }
          }
          CleanupRemovesAll(list[2..], id);
          assert list[1..] == [list[1]] + list[2..];
          WithoutPrepend(list[1], list[2..], id);
        }
      } else {
        assert NoAdjacent(list[1..], id) by {
          forall i | 0 <= i < |list[1..]| - 1 ensures !(list[1..][i].id == id && list[1..][i + 1].id == id) {
            assert list[1..][i] == list[i + 1] && list[1..][i + 1] == list[i + 2];
          }
        }
        CleanupRemovesAll(list[1..], id);
      }
    }
  }

  /** In particular, a socket registered at most once is gone after `_cleanup`. */
  lemma CleanupRemovesSingle(list: seq<Conn>, id: nat)
    requires AtMostOnce(list, id)
    ensures forall i :: 0 <= i < |Cleanup(list, id)| ==> Cleanup(list, id)[i].id != id
  {
    assert NoAdjacent(list, id) by {
      forall i | 0 <= i < |list| - 1 ensures !(list[i].id == id && list[i + 1].id == id) {
      }
    }
    CleanupRemovesAll(list, id);
  }

  /** A socket registered twice in a row survives `_cleanup` once. */
  lemma CleanupSkipsAdjacent(s: Conn)
    ensures Cleanup([s, s], s.id) == [s]
  {
    assert [s, s][2..] == [];
  }
}
