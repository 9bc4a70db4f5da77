/** Sending a file in chunks of fixed size: which deliveries, in which order, make it whole. */
module UploadChunks {
  import opened Arithmetic
  import opened Bytes
  import opened UploadModel

  function Chunks(n: nat, c: nat): nat
    requires c > 0
  {
    (n + c - 1) / c
  }

  /** The i-th write of a client that cuts its file into chunks of c bytes. */
  function Chunk(name: string, source: seq<Byte>, c: nat, i: nat): Request
    requires c > 0 && i < Chunks(|source|, c)
  {
    ChunkBounds(|source|, c, i);
    Put(name, Number(i * c), source[i * c..Min(i * c + c, |source|)])
  }

  lemma ChunkBounds(n: nat, c: nat, i: nat)
    requires c > 0
    ensures i < Chunks(n, c) <==> i * c < n
    ensures Min(i * c, n) <= n && (i + 1) * c == i * c + c
  {
    hide Chunks;
    ChunksSpan(n, c);
    if i < Chunks(n, c) {
      NoLater(i, Chunks(n, c), c);
    } else {
      NoLater(Chunks(n, c), i + 1, c);
    }
  }

  lemma ChunksSpan(n: nat, c: nat)
    requires c > 0
    ensures Chunks(n, c) * c - c < n <= Chunks(n, c) * c
  {
    assert n + c - 1 == Chunks(n, c) * c + (n + c - 1) % c;
  }

  lemma NotBelow(a: nat, b: nat)
    ensures a * b >= 0
  {
  }

  lemma NoLater(i: nat, n: nat, c: nat)
    requires i < n
    ensures i * c <= (n - 1) * c == n * c - c
  {
    NotBelow(n - 1 - i, c);
    assert (n - 1 - i) * c == (n - 1) * c - i * c;
  }

  /** The longest body the server hands on: 64 MiB. */
  const BODY_LIMIT := 64 * 1024 * 1024

  /** One arrival of a chunk, with how its handling went. */
  datatype Delivery = Delivery(chunk: nat, luck: Luck)

  predicate Deliverable(source: seq<Byte>, c: nat, ds: seq<Delivery>)
    requires c > 0
  {
    forall k :: 0 <= k < |ds| ==> ds[k].chunk < Chunks(|source|, c)
  }

  function Deliver(h: seq<Byte> -> string, st: Store, name: string, source: seq<Byte>, c: nat, ds: seq<Delivery>): Store
    requires c > 0 && Deliverable(source, c, ds)
  {
    if |ds| == 0 then st
    else
      var n := |ds| - 1;
      Reply(h, Deliver(h, st, name, source, c, ds[..n]), Chunk(name, source, c, ds[n].chunk), ds[n].luck).0
  }

  /** How many bytes of the chunk get in, should the file stand right before it. */
  function Taken(source: seq<Byte>, c: nat, d: Delivery): nat
    requires c > 0 && d.chunk < Chunks(|source|, c)
  {
    if d.chunk * c < OFFSET_LIMIT && (d.luck.sizeOk || d.chunk == 0)
    then Added(Chunk("", source, c, d.chunk).body, d.luck) else 0
  }

  /** A first chunk that takes the file it cannot look at for an empty one, and begins it anew. */
  predicate Anew(d: Delivery) {
    d.chunk == 0 && !d.luck.sizeOk && (d.luck.fileOk || d.luck.touched)
  }

  /** The deliveries that count: those from the last one that began the file anew, if any did. */
  function Since(ds: seq<Delivery>): (r: seq<Delivery>)
    ensures |r| <= |ds| && r == ds[|ds| - |r|..]
  {
    if |ds| == 0 then []
    else if Anew(ds[|ds| - 1]) then [ds[|ds| - 1]]
    else Since(ds[..|ds| - 1]) + [ds[|ds| - 1]]
  }

  predicate Lands(source: seq<Byte>, c: nat, d: Delivery)
    requires c > 0 && d.chunk < Chunks(|source|, c)
  {
    Taken(source, c, d) == |Chunk("", source, c, d.chunk).body|
  }

  /** The chunks that would land, in the order of arrivals; -1 for the others. */
  function Landed(source: seq<Byte>, c: nat, ds: seq<Delivery>): seq<int>
    requires c > 0 && Deliverable(source, c, ds)
  {
    seq(|ds|, k requires 0 <= k < |ds| => if Lands(source, c, ds[k]) then ds[k].chunk else -1)
  }

  /** The source's first g chunks. */
  function Front(source: seq<Byte>, c: nat, g: nat): seq<Byte> {
    NotBelow(g, c);
    source[..Min(g * c, |source|)]
  }

  /** The chunk that is due gets in only in part. */
  predicate Tears(source: seq<Byte>, c: nat, g: nat, d: Delivery)
    requires c > 0 && d.chunk < Chunks(|source|, c)
  {
    d.chunk == g && !Lands(source, c, d) && Taken(source, c, d) > 0
  }

  /** Some write of the chunk that was due got in only in part. */
  predicate AnyTorn(source: seq<Byte>, c: nat, ds: seq<Delivery>)
    requires c > 0 && Deliverable(source, c, ds)
  {
    exists k :: 0 <= k < |ds| && TornAt(source, c, ds, k)
  }

  predicate TornAt(source: seq<Byte>, c: nat, ds: seq<Delivery>, k: nat)
    requires c > 0 && Deliverable(source, c, ds) && k < |ds|
  {
    Tears(source, c, Got(Landed(source, c, ds[..k])), ds[k])
  }

  /** How many chunks have got in, taking each only when it is the next one. */
  function Got(order: seq<int>): nat {
    if |order| == 0 then 0
    else
      var g := Got(order[..|order| - 1]);
      if order[|order| - 1] == g then g + 1 else g
  }

  /** Chunks 0 to n - 1 occur in the order of arrivals, one after the other. */
  ghost predicate InOrder(order: seq<int>, n: nat) {
    exists at: seq<nat> :: |at| == n && Picks(order, at)
  }

  ghost predicate Picks(order: seq<int>, at: seq<nat>) {
    && (forall j :: 0 <= j < |at| ==> at[j] < |order| && order[at[j]] == j)
    && (forall i, j :: 0 <= i < j < |at| ==> at[i] < at[j])
  }

  lemma {:induction false} GotInOrder(order: seq<int>)
    ensures InOrder(order, Got(order))
  {
    if |order| == 0 {
      assert Picks(order, []);
    } else {
      var n := |order| - 1;
      GotInOrder(order[..n]);
      var at :| |at| == Got(order[..n]) && Picks(order[..n], at);
      assert Picks(order, at);
      if order[n] == Got(order[..n]) {
        assert Picks(order, at + [n]);
      }
    }
  }

  lemma {:induction false} InOrderGot(order: seq<int>, at: seq<nat>)
    requires Picks(order, at)
    ensures |at| <= Got(order)
  {
    if |at| > 0 {
      assert at[|at| - 1] < |order|;
      var n, m := |order| - 1, |at| - 1;
      assert forall j :: 0 <= j < m ==> at[j] < at[m];
      assert Picks(order[..n], at[..m]);
      InOrderGot(order[..n], at[..m]);
      if at[m] < n {
        assert Picks(order[..n], at);
        InOrderGot(order[..n], at);
      }
    }
  }

  lemma TakenBounds(source: seq<Byte>, c: nat, d: Delivery)
    requires c > 0 && d.chunk < Chunks(|source|, c)
    ensures var from, taken := d.chunk * c, Taken(source, c, d);
            && from + taken <= |source| && taken <= c
            && (Lands(source, c, d) ==> from + taken == Min((d.chunk + 1) * c, |source|))
            && (!Lands(source, c, d) ==> taken < c && from + taken < |source|)
  {
    hide Chunks;
    ChunkBounds(|source|, c, d.chunk);
  }

  lemma ChunkDue(h: seq<Byte> -> string, st: Store, name: string, source: seq<Byte>, c: nat, d: Delivery)
    requires SafeName(name) && c > 0 && d.chunk < Chunks(|source|, c)
    requires d.chunk * c <= |source|
    requires Content(st, name) == source[..d.chunk * c] || Anew(d)
    ensures d.chunk * c + Taken(source, c, d) <= |source|
    ensures Content(Reply(h, st, Chunk(name, source, c, d.chunk), d.luck).0, name) ==
            source[..d.chunk * c + Taken(source, c, d)]
  {
    hide SafeName, Digest, Chunks, Added, Content, PutReply, Written;
    var r, from, k := Chunk(name, source, c, d.chunk), d.chunk * c, Taken(source, c, d);
    TakenBounds(source, c, d);
    PutContent(st, name, r.offset, r.body, d.luck);
    if d.chunk == 0 {
      assert from == 0;
      FirstWritten(st, name, r.body, d.luck);
      assert r.body[..k] == source[..k];
    } else {
      assert from > 0;
      if from < OFFSET_LIMIT && d.luck.sizeOk {
        assert source[..from] + r.body[..k] == source[..from + k];
      }
    }
  }

  lemma FirstWritten(st: Store, name: string, body: seq<Byte>, luck: Luck)
    requires Content(st, name) == [] || (!luck.sizeOk && (luck.fileOk || luck.touched))
    ensures Added(body, luck) <= |body| && Written(st, name, body, luck) == body[..Added(body, luck)]
  {
  }

  lemma ChunkNotDue(h: seq<Byte> -> string, st: Store, name: string, source: seq<Byte>, c: nat, d: Delivery)
    requires c > 0 && d.chunk < Chunks(|source|, c) && d.chunk * c != |Content(st, name)| && !Anew(d)
    ensures Content(Reply(h, st, Chunk(name, source, c, d.chunk), d.luck).0, name) == Content(st, name)
  {
    hide SafeName, Digest, Chunks, Content, PutReply, Written, Added;
    var r := Chunk(name, source, c, d.chunk);
    PutContent(st, name, r.offset, r.body, d.luck);
    if d.chunk > 0 {
      AtLeast(d.chunk, c);
    } else {
      NotOpened(st, name, r.body, d.luck);
    }
  }

  lemma NotOpened(st: Store, name: string, body: seq<Byte>, luck: Luck)
    ensures !luck.fileOk && !luck.touched ==> Written(st, name, body, luck) == Content(st, name)
  {
  }

  /** A chunk that is not due changes nothing; the one that is due brings in what gets taken. */
  lemma ChunkLands(h: seq<Byte> -> string, st: Store, name: string, source: seq<Byte>, c: nat, g: nat, d: Delivery)
    requires SafeName(name) && c > 0 && d.chunk < Chunks(|source|, c)
    requires if Anew(d) then g == 0 else Content(st, name) == Front(source, c, g)
    ensures var t := Reply(h, st, Chunk(name, source, c, d.chunk), d.luck).0;
            var from := d.chunk * c;
            && from + Taken(source, c, d) <= |source| && Taken(source, c, d) <= c
            && (d.chunk != g ==> Content(t, name) == Content(st, name))
            && (d.chunk == g ==> Content(t, name) == source[..from + Taken(source, c, d)])
            && (d.chunk == g && Lands(source, c, d) ==> Content(t, name) == Front(source, c, g + 1))
            && (!Lands(source, c, d) ==> Taken(source, c, d) < c && from + Taken(source, c, d) < |source|)
  {
    hide SafeName, Chunks, Reply, Content, Taken, Lands;
    ChunkBounds(|source|, c, d.chunk);
    ChunkBounds(|source|, c, g);
    TakenBounds(source, c, d);
    if d.chunk == g {
      ChunkDue(h, st, name, source, c, d);
    } else {
      if d.chunk * c == g * c {
        SameChunk(g, d.chunk, c);
      }
      ChunkNotDue(h, st, name, source, c, d);
    }
  }

  lemma SameChunk(g: nat, x: nat, c: nat)
    requires c > 0 && g * c == x * c
    ensures g == x
  {
    assert (g - x) * c == 0;
  }

  /** A file that ends inside a chunk is never again where a chunk starts. */
  lemma StuckStays(h: seq<Byte> -> string, st: Store, name: string, source: seq<Byte>, c: nat, g: nat, d: Delivery)
    requires c > 0 && d.chunk < Chunks(|source|, c)
    requires g * c < |Content(st, name)| < g * c + c && !Anew(d)
    ensures Content(Reply(h, st, Chunk(name, source, c, d.chunk), d.luck).0, name) == Content(st, name)
  {
    hide Reply, Content, Chunks;
    Between(d.chunk, g, c, |Content(st, name)|);
    ChunkNotDue(h, st, name, source, c, d);
  }

  lemma Between(x: nat, g: nat, c: nat, m: nat)
    requires c > 0 && g * c < m < g * c + c
    ensures x * c != m
  {
    assert (g + 1) * c == g * c + c;
    if x * c == m {
      Smaller(g, x, c);
      Smaller(x, g + 1, c);
    }
  }

  lemma NothingTaken(source: seq<Byte>, c: nat, g: nat, d: Delivery)
    requires c > 0 && d.chunk < Chunks(|source|, c) && Taken(source, c, d) == 0 && d.chunk == g
    ensures g * c <= |source| && source[..g * c + Taken(source, c, d)] == Front(source, c, g)
  {
    hide Chunks, Taken;
    ChunkBounds(|source|, c, g);
  }

  /** The file ends inside a chunk, before the source's end. */
  ghost predicate Stuck(content: seq<Byte>, source: seq<Byte>, c: nat) {
    |content| < |source| && exists g: nat :: g * c < |content| < g * c + c
  }

  lemma StuckStep(h: seq<Byte> -> string, st: Store, name: string, source: seq<Byte>, c: nat, d: Delivery)
    requires c > 0 && d.chunk < Chunks(|source|, c) && Stuck(Content(st, name), source, c) && !Anew(d)
    ensures Stuck(Content(Reply(h, st, Chunk(name, source, c, d.chunk), d.luck).0, name), source, c)
  {
    hide Reply, Content, Chunks;
    var g: nat :| g * c < |Content(st, name)| < g * c + c;
    StuckStays(h, st, name, source, c, g, d);
  }

  lemma ChunkStep(h: seq<Byte> -> string, st: Store, name: string, source: seq<Byte>, c: nat, g: nat, d: Delivery)
    requires SafeName(name) && c > 0 && d.chunk < Chunks(|source|, c)
    requires if Anew(d) then g == 0 else Content(st, name) == Front(source, c, g)
    ensures var content := Content(Reply(h, st, Chunk(name, source, c, d.chunk), d.luck).0, name);
            if Tears(source, c, g, d) then Stuck(content, source, c)
            else content == Front(source, c, if d.chunk == g && Lands(source, c, d) then g + 1 else g)
  {
    hide SafeName, Reply, Content, Chunks, Taken, Lands, Front, Stuck;
    ChunkLands(h, st, name, source, c, g, d);
    if Tears(source, c, g, d) {
      StuckAt(source, c, g, Taken(source, c, d));
    } else if d.chunk == g && !Lands(source, c, d) {
      NothingTaken(source, c, g, d);
    }
  }

  /** Where these deliveries leave a file that began empty. */
  ghost predicate Stands(content: seq<Byte>, source: seq<Byte>, c: nat, es: seq<Delivery>)
    requires c > 0 && Deliverable(source, c, es)
  {
    if AnyTorn(source, c, es) then Stuck(content, source, c)
    else content == Front(source, c, Got(Landed(source, c, es)))
  }

  lemma StandsMore(h: seq<Byte> -> string, st: Store, name: string, source: seq<Byte>, c: nat, es: seq<Delivery>)
    requires SafeName(name) && c > 0 && |es| > 0 && Deliverable(source, c, es)
    requires if Anew(es[|es| - 1]) then |es| == 1 else Stands(Content(st, name), source, c, es[..|es| - 1])
    ensures var d := es[|es| - 1];
            Stands(Content(Reply(h, st, Chunk(name, source, c, d.chunk), d.luck).0, name), source, c, es)
  {
    hide SafeName, Chunks, Reply, Content, Front, Taken, Lands, Landed, Got, Stuck, AnyTorn, Anew;
    var m := |es| - 1;
    GotMore(source, c, es);
    TornSplit(source, c, es);
    if Anew(es[m]) {
      NothingYet(source, c, es[..m]);
      ChunkStep(h, st, name, source, c, 0, es[m]);
    } else if AnyTorn(source, c, es[..m]) {
      StuckStep(h, st, name, source, c, es[m]);
    } else {
      ChunkStep(h, st, name, source, c, Got(Landed(source, c, es[..m])), es[m]);
    }
  }

  lemma {:induction false} DeliveredSoFar(h: seq<Byte> -> string, st: Store, name: string, source: seq<Byte>, c: nat,
                                          ds: seq<Delivery>)
    requires SafeName(name) && c > 0 && Content(st, name) == [] && Deliverable(source, c, ds)
    ensures Stands(Content(Deliver(h, st, name, source, c, ds), name), source, c, Since(ds))
  {
    hide SafeName, Chunks, Reply, Content, Stands, Anew;
    if |ds| == 0 {
      StandsAtFirst(source, c, ds);
    } else {
      var n, es := |ds| - 1, Since(ds);
      DeliveredSoFar(h, st, name, source, c, ds[..n]);
      assert es[|es| - 1] == ds[n] && es[..|es| - 1] == if Anew(ds[n]) then [] else Since(ds[..n]);
      StandsMore(h, Deliver(h, st, name, source, c, ds[..n]), name, source, c, es);
    }
  }

  lemma StandsAtFirst(source: seq<Byte>, c: nat, ds: seq<Delivery>)
    requires c > 0 && |ds| == 0
    ensures Stands([], source, c, ds)
  {
    NothingYet(source, c, ds);
  }

  lemma NothingYet(source: seq<Byte>, c: nat, ds: seq<Delivery>)
    requires c > 0 && |ds| == 0
    ensures Got(Landed(source, c, ds)) == 0 && !AnyTorn(source, c, ds) && Front(source, c, 0) == []
  {
  }

  lemma GotMore(source: seq<Byte>, c: nat, ds: seq<Delivery>)
    requires c > 0 && Deliverable(source, c, ds) && |ds| > 0
    ensures var n := |ds| - 1;
            var g := Got(Landed(source, c, ds[..n]));
            Got(Landed(source, c, ds)) == if Lands(source, c, ds[n]) && ds[n].chunk == g then g + 1 else g
  {
    hide Chunks, Taken, Lands;
    assert Landed(source, c, ds)[..|ds| - 1] == Landed(source, c, ds[..|ds| - 1]);
  }

  lemma StuckAt(source: seq<Byte>, c: nat, g: nat, k: nat)
    requires 0 < k < c && g * c + k < |source|
    ensures Stuck(source[..g * c + k], source, c)
  {
    assert g * c < |source[..g * c + k]| < g * c + c;
  }

  lemma TornSplit(source: seq<Byte>, c: nat, ds: seq<Delivery>)
    requires c > 0 && Deliverable(source, c, ds) && |ds| > 0
    ensures AnyTorn(source, c, ds) <==> AnyTorn(source, c, ds[..|ds| - 1]) || TornAt(source, c, ds, |ds| - 1)
  {
    hide Chunks, Taken, Lands, Got, Landed;
    var front := ds[..|ds| - 1];
    assert forall k :: 0 <= k < |front| ==> front[..k] == ds[..k] && front[k] == ds[k];
    forall k | 0 <= k < |front|
      ensures TornAt(source, c, front, k) <==> TornAt(source, c, ds, k)
    {
      assert front[..k] == ds[..k];
    }
  }

  /**
   A client that cuts its file into fixed chunks and sends them in whatever order, however
   often and with whatever failures: the file is whole exactly when, from the last delivery that
   began it anew, no write of a chunk that was due stopped part of the way, and all chunks occur
   in order among those that can land.
   */
  lemma WholeIffChunksInOrder(h: seq<Byte> -> string, st: Store, name: string, source: seq<Byte>, c: nat,
          ds: seq<Delivery>)
    requires SafeName(name) && c > 0 && Content(st, name) == [] && Deliverable(source, c, ds)
    ensures Content(Deliver(h, st, name, source, c, ds), name) == source <==>
            !AnyTorn(source, c, Since(ds)) && InOrder(Landed(source, c, Since(ds)), Chunks(|source|, c))
  {
    hide SafeName, Chunks, Deliver, Content, Picks, Got, Landed, AnyTorn, Lands, Since;
    var es := Since(ds);
    var order := Landed(source, c, es);
    var n, g := Chunks(|source|, c), Got(order);
    DeliveredSoFar(h, st, name, source, c, ds);
    ChunkBounds(|source|, c, g);
    assert source[..|source|] == source;
    if !AnyTorn(source, c, es) {
      assert Content(Deliver(h, st, name, source, c, ds), name) == source <==> g >= n;
    }
    if InOrder(order, n) {
      var at :| |at| == n && Picks(order, at);
      InOrderGot(order, at);
    }
    if g >= n {
      GotInOrder(order);
      var at :| |at| == g && Picks(order, at);
      PicksFront(order, at, n);
    }
  }

  ghost predicate Completable(h: seq<Byte> -> string, st: Store, name: string, source: seq<Byte>, c: nat)
    requires c > 0
  {
    exists ds: seq<Delivery> :: Deliverable(source, c, ds)
        && Content(Deliver(h, st, name, source, c, ds), name) == source
  }

  /** The last chunk starts where an offset can say. */
  predicate LastFits(source: seq<Byte>, c: nat)
    requires c > 0
  {
    |source| == 0 || (Chunks(|source|, c) - 1) * c < OFFSET_LIMIT
  }

  /** A source can be sent in chunks of c bytes exactly when its last chunk starts below the limit of an offset. */
  lemma CompletableIff(h: seq<Byte> -> string, st: Store, name: string, source: seq<Byte>, c: nat)
    requires SafeName(name) && c > 0 && Content(st, name) == []
    ensures Completable(h, st, name, source, c) <==> LastFits(source, c)
  {
    hide SafeName, Deliver, Content, Deliverable, LastFits;
    if Completable(h, st, name, source, c) {
      var ds: seq<Delivery> :|
          Deliverable(source, c, ds) && Content(Deliver(h, st, name, source, c, ds), name) == source;
      WholeFits(h, st, name, source, c, ds);
    }
    if LastFits(source, c) {
      var _ := FittingIsSent(h, st, name, source, c);
    }
  }

  lemma WholeFits(h: seq<Byte> -> string, st: Store, name: string, source: seq<Byte>, c: nat, ds: seq<Delivery>)
    requires SafeName(name) && c > 0 && Content(st, name) == [] && Deliverable(source, c, ds)
    requires Content(Deliver(h, st, name, source, c, ds), name) == source
    ensures LastFits(source, c)
  {
    hide SafeName, Deliver, Content, Landed, InOrder, AnyTorn, Chunks, Since;
    WholeIffChunksInOrder(h, st, name, source, c, ds);
    if |source| > 0 {
      LastLanded(source, c, Since(ds));
    }
  }

  lemma FittingIsSent(h: seq<Byte> -> string, st: Store, name: string, source: seq<Byte>, c: nat)
      returns (ds: seq<Delivery>)
    requires SafeName(name) && c > 0 && Content(st, name) == [] && LastFits(source, c)
    ensures Deliverable(source, c, ds) && Content(Deliver(h, st, name, source, c, ds), name) == source
  {
    hide SafeName, Deliver, Content, Landed, InOrder, AnyTorn, Chunks, Since;
    ChunkBounds(|source|, c, 0);
    ds := seq(Chunks(|source|, c), i requires 0 <= i < Chunks(|source|, c) => Delivery(i, FINE));
    AllLand(source, c, ds);
    NothingAnew(ds);
    WholeIffChunksInOrder(h, st, name, source, c, ds);
  }

  lemma LastLanded(source: seq<Byte>, c: nat, ds: seq<Delivery>)
    requires c > 0 && |source| > 0 && Deliverable(source, c, ds) && InOrder(Landed(source, c, ds), Chunks(|source|, c))
    ensures Chunks(|source|, c) > 0 && (Chunks(|source|, c) - 1) * c < OFFSET_LIMIT
  {
    hide Chunks, Added;
    var n := Chunks(|source|, c);
    ChunkBounds(|source|, c, 0);
    ChunkBounds(|source|, c, n - 1);
    var at :| |at| == n && Picks(Landed(source, c, ds), at);
    assert at[n - 1] < |ds| && Landed(source, c, ds)[at[n - 1]] == n - 1;
  }

  lemma FineLands(source: seq<Byte>, c: nat, i: nat)
    requires c > 0 && i < Chunks(|source|, c)
    ensures i * c < OFFSET_LIMIT ==> Lands(source, c, Delivery(i, FINE))
  {
    hide Chunks;
  }

  lemma {:induction false} NothingAnew(ds: seq<Delivery>)
    requires forall i :: 0 <= i < |ds| ==> !Anew(ds[i])
    ensures Since(ds) == ds
  {
    if |ds| > 0 {
      NothingAnew(ds[..|ds| - 1]);
    }
  }

  lemma AllLand(source: seq<Byte>, c: nat, ds: seq<Delivery>)
    requires c > 0 && |ds| == Chunks(|source|, c) && (|ds| == 0 || (|ds| - 1) * c < OFFSET_LIMIT)
    requires forall i :: 0 <= i < |ds| ==> ds[i] == Delivery(i, FINE)
    ensures !AnyTorn(source, c, ds) && InOrder(Landed(source, c, ds), |ds|)
  {
    hide Chunks, Got, Lands, Taken;
    var order := Landed(source, c, ds);
    forall i: nat | i < |ds|
      ensures Lands(source, c, ds[i]) && order[i] == i
    {
      NoLater(i, |ds|, c);
      FineLands(source, c, i);
    }
    var at := seq(|ds|, i requires 0 <= i < |ds| => i);
    assert |at| == |ds| && Picks(order, at);
  }

  /** A write that starts just below the limit passes it, and the server takes bodies that long. */
  lemma OneWritePassesTheLimit(st: Store, name: string, body: seq<Byte>)
    requires SafeName(name) && |Content(st, name)| == OFFSET_LIMIT - 1 && 2 <= |body| <= BODY_LIMIT
    ensures var (t, status) := PutReply(st, name, Number(OFFSET_LIMIT - 1), body, FINE);
            && status == 200 && Content(t, name) == Content(st, name) + body && |Content(t, name)| > OFFSET_LIMIT
            && forall o, more: seq<Byte>, luck: Luck :: luck.sizeOk ==> PutReply(t, name, o, more, luck).0 == t
  {
    hide SafeName, Content;
    var t := PutReply(st, name, Number(OFFSET_LIMIT - 1), body, FINE).0;
    PutContent(st, name, Number(OFFSET_LIMIT - 1), body, FINE);
    assert body[..|body|] == body;
    forall o, more: seq<Byte>, luck: Luck | luck.sizeOk
      ensures PutReply(t, name, o, more, luck).0 == t
    {
      LargeFilesStall(t, name, o, more, luck);
    }
  }

  lemma PicksFront(order: seq<int>, at: seq<nat>, n: nat)
    requires Picks(order, at) && n <= |at|
    ensures InOrder(order, n)
  {
    assert |at[..n]| == n && Picks(order, at[..n]);
  }
}
