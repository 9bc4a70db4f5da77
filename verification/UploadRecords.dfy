/** What a complete record says about its file and its source, over runs in which operations may fail. */
module UploadRecords {
  import opened Bytes
  import opened UploadModel
  import opened Wrappers

  // ---- what a complete record means

  /** A name's record, if complete, has its file's size and digest. */
  predicate TruthfulAt(h: seq<Byte> -> string, st: Store, name: string) {
    name in st.index && st.index[name].complete ==>
      name in st.files && st.index[name].size == |st.files[name]| && st.index[name].sha256 == Digest(h, st.files[name])
  }

  ghost predicate Truthful(h: seq<Byte> -> string, st: Store) {
    forall name :: TruthfulAt(h, st, name)
  }

  predicate Complete(st: Store, name: string) {
    name in st.index && st.index[name].complete
  }

  /** Init keeps the content when the declared size is the one it sees. */
  predicate Keeps(st: Store, name: string, declared: int, luck: Luck) {
    declared > 0 && declared == Seen(st, name, luck)
  }

  /** A write leaves other bytes than the record speaks of. */
  predicate Alters(h: seq<Byte> -> string, st: Store, name: string, body: seq<Byte>, luck: Luck) {
    if luck.sizeOk then Added(body, luck) > 0
    else
      var now, was := Written(st, name, body, luck), Content(st, name);
      |now| != |was| || Digest(h, now) != Digest(h, was)
  }

  /**
   The failing requests that leave a complete record beside a file it does not describe: a
   committed file is emptied, written or deleted and its record stays, or a file is committed
   that cannot be looked at or read.
   */
  predicate Breaks(h: seq<Byte> -> string, st: Store, r: Request, luck: Luck) {
    SafeName(r.name) &&
    match r
    case Init(name, declared) =>
      && Complete(st, name) && declared.Some? && !Keeps(st, name, declared.value, luck) && |Content(st, name)| > 0
      && (if luck.fileOk then !luck.indexOk else luck.touched)
    case Put(name, offset, body) =>
      && Complete(st, name) && Asked(offset) == Some(Seen(st, name, luck)) && !(luck.fileOk && luck.indexOk)
      && Alters(h, st, name, body, luck)
    case Commit(name) =>
      && name in st.files && luck.indexOk
      && ((!luck.sizeOk && |Content(st, name)| > 0) || (!luck.readOk && Digest(h, Content(st, name)) != ""))
    case Remove(name) => Complete(st, name) && luck.fileOk && !luck.indexOk
  }

  lemma InitTruthfulIff(h: seq<Byte> -> string, st: Store, name: string, declared: Option<int>, luck: Luck)
    requires TruthfulAt(h, st, name)
    ensures TruthfulAt(h, InitReply(st, name, declared, luck).0, name) <==> !Breaks(h, st, Init(name, declared), luck)
  {
    hide SafeName, Digest, Written;
  }

  /** While the size can be read, a write that goes wrong breaks the record exactly when bytes got in. */
  lemma WriteTruthfulIff(h: seq<Byte> -> string, st: Store, name: string, offset: Offset, body: seq<Byte>, luck: Luck)
    requires TruthfulAt(h, st, name)
    ensures TruthfulAt(h, PutReply(st, name, offset, body, luck).0, name)
            <==> !Breaks(h, st, Put(name, offset, body), luck)
  {
    hide SafeName, Digest;
    PutContent(st, name, offset, body, luck);
    if Added(body, luck) == 0 {
      assert Content(st, name) + body[..0] == Content(st, name);
    }
  }

  /** A commit that is answered 200 breaks the record exactly when it saw no size or no digest. */
  lemma CommitTruthfulIff(h: seq<Byte> -> string, st: Store, name: string, luck: Luck)
    requires TruthfulAt(h, st, name)
    ensures TruthfulAt(h, CommitReply(h, st, name, luck).0, name) <==> !Breaks(h, st, Commit(name), luck)
  {
    hide SafeName, Digest;
  }

  lemma RemoveTruthfulIff(h: seq<Byte> -> string, st: Store, name: string, luck: Luck)
    requires TruthfulAt(h, st, name)
    ensures TruthfulAt(h, RemoveReply(st, name, luck).0, name) <==> !Breaks(h, st, Remove(name), luck)
  {
    hide SafeName, Digest;
  }

  lemma OthersTruthful(h: seq<Byte> -> string, st: Store, r: Request, luck: Luck, name: string)
    requires name != r.name
    ensures TruthfulAt(h, Reply(h, st, r, luck).0, name) <==> TruthfulAt(h, st, name)
  {
    hide Reply, Digest;
    OthersUntouched(h, st, r, luck, name);
  }

  /** One request keeps every complete record truthful exactly when it is none of those. */
  lemma TruthfulIff(h: seq<Byte> -> string, st: Store, r: Request, luck: Luck)
    requires Truthful(h, st)
    ensures Truthful(h, Reply(h, st, r, luck).0) <==> !Breaks(h, st, r, luck)
  {
    hide SafeName, Digest, InitReply, PutReply, CommitReply, RemoveReply, Breaks, TruthfulAt;
    var t := Reply(h, st, r, luck).0;
    assert TruthfulAt(h, t, r.name) <==> !Breaks(h, st, r, luck) by {
      match r
      case Init(name, declared) => InitTruthfulIff(h, st, name, declared, luck);
      case Put(name, offset, body) => WriteTruthfulIff(h, st, name, offset, body, luck);
      case Commit(name) => CommitTruthfulIff(h, st, name, luck);
      case Remove(name) => RemoveTruthfulIff(h, st, name, luck);
    }
    forall name | name != r.name
      ensures TruthfulAt(h, t, name) <==> TruthfulAt(h, st, name)
    {
      OthersTruthful(h, st, r, luck, name);
    }
  }

  /** No request of the run does it, each taken in the store it meets. */
  ghost predicate NothingBreaks(h: seq<Byte> -> string, st: Store, arrivals: seq<Arrival>)
    decreases |arrivals|
  {
    |arrivals| == 0 ||
    (!Breaks(h, st, arrivals[0].request, arrivals[0].luck) &&
     NothingBreaks(h, Reply(h, st, arrivals[0].request, arrivals[0].luck).0, arrivals[1..]))
  }

  ghost predicate TruthfulThroughout(h: seq<Byte> -> string, st: Store, arrivals: seq<Arrival>)
    decreases |arrivals|
  {
    Truthful(h, st) &&
    (|arrivals| == 0 || TruthfulThroughout(h, Reply(h, st, arrivals[0].request, arrivals[0].luck).0, arrivals[1..]))
  }

  /**
   Over any run, whatever fails: complete records have their files' sizes and digests at every
   moment exactly when none of those requests is met.
   */
  lemma {:induction false} TruthfulThroughoutIff(h: seq<Byte> -> string, st: Store, arrivals: seq<Arrival>)
    requires Truthful(h, st)
    ensures TruthfulThroughout(h, st, arrivals) <==> NothingBreaks(h, st, arrivals)
    decreases |arrivals|
  {
    hide Truthful, Reply, Breaks;
    if |arrivals| > 0 {
      var t := Reply(h, st, arrivals[0].request, arrivals[0].luck).0;
      TruthfulIff(h, st, arrivals[0].request, arrivals[0].luck);
      if Truthful(h, t) {
        TruthfulThroughoutIff(h, t, arrivals[1..]);
      } else {
        Untruthful(h, t, arrivals[1..]);
      }
    }
  }

  lemma Untruthful(h: seq<Byte> -> string, st: Store, arrivals: seq<Arrival>)
    requires !Truthful(h, st)
    ensures !TruthfulThroughout(h, st, arrivals)
  {
  }

  /** So at the end of such a run as well. */
  lemma {:induction false} CompleteIsTruthful(h: seq<Byte> -> string, st: Store, arrivals: seq<Arrival>)
    requires Truthful(h, st) && NothingBreaks(h, st, arrivals)
    ensures Truthful(h, Run(h, st, arrivals))
    decreases |arrivals|
  {
    hide Truthful, Reply, Breaks;
    if |arrivals| > 0 {
      TruthfulIff(h, st, arrivals[0].request, arrivals[0].luck);
      CompleteIsTruthful(h, Reply(h, st, arrivals[0].request, arrivals[0].luck).0, arrivals[1..]);
    }
  }

  ghost predicate AllGood(arrivals: seq<Arrival>) {
    forall k :: 0 <= k < |arrivals| ==> arrivals[k].luck.Good()
  }

  /** Where no operation fails, nothing breaks. */
  lemma {:induction false} GoodBreaksNothing(h: seq<Byte> -> string, st: Store, arrivals: seq<Arrival>)
    requires AllGood(arrivals)
    ensures NothingBreaks(h, st, arrivals)
    decreases |arrivals|
  {
    hide Reply, SafeName;
    if |arrivals| > 0 {
      GoodBreaksNothing(h, Reply(h, st, arrivals[0].request, arrivals[0].luck).0, arrivals[1..]);
    }
  }

  const NO_INDEX := Luck(true, true, 0, true, true, false)
  const UNREADABLE := Luck(true, true, 0, false, true, true)

  /**
   With only the index failing, a new init of another size answers 201 over the emptied file and
   a delete answers 200 without it; both leave the old complete record in place.
   */
  lemma StaleRecords(h: seq<Byte> -> string, st: Store, name: string, declared: int)
    requires Truthful(h, st) && SafeName(name) && name in st.index && st.index[name].complete
    requires |Content(st, name)| > 0 && declared != |Content(st, name)|
    ensures InitReply(st, name, Some(declared), NO_INDEX).1 == 201
    ensures !Truthful(h, InitReply(st, name, Some(declared), NO_INDEX).0)
    ensures RemoveReply(st, name, NO_INDEX).1 == 200 && !Truthful(h, RemoveReply(st, name, NO_INDEX).0)
  {
    hide SafeName, Digest, Truthful;
    TruthfulIff(h, st, Init(name, Some(declared)), NO_INDEX);
    TruthfulIff(h, st, Remove(name), NO_INDEX);
    TruthfulNames(h, st, name);
  }

  /** A file that cannot be read is committed with an empty digest, and answered 200. */
  lemma UnreadableIsCommitted(h: seq<Byte> -> string, st: Store, name: string)
    requires Truthful(h, st) && SafeName(name) && name in st.files && Digest(h, Content(st, name)) != ""
    ensures var (t, status) := CommitReply(h, st, name, UNREADABLE);
            status == 200 && Complete(t, name) && t.index[name].sha256 == "" && !Truthful(h, t)
  {
    hide SafeName, Digest, Truthful;
    TruthfulIff(h, st, Commit(name), UNREADABLE);
  }

  lemma TruthfulNames(h: seq<Byte> -> string, st: Store, name: string)
    requires Truthful(h, st) && name in st.index && st.index[name].complete
    ensures name in st.files
  {
    assert TruthfulAt(h, st, name);
  }

  /**
   A complete record stands for the whole source exactly when its size is the source's:
   commit itself never compares the two.
   */
  lemma WholeIffSizeMatches(h: seq<Byte> -> string, sources: map<string, seq<Byte>>, arrivals: seq<Arrival>,
          name: string)
    requires AllHonest(sources, arrivals) && NothingBreaks(h, EMPTY, arrivals)
    requires var st := Run(h, EMPTY, arrivals); name in st.index && st.index[name].complete
    ensures var st := Run(h, EMPTY, arrivals);
            && name in st.files
            && (st.files[name] == Source(sources, name) <==> st.index[name].size == |Source(sources, name)|)
            && (st.index[name].size == |Source(sources, name)| ==>
                st.index[name].sha256 == Digest(h, Source(sources, name)))
  {
    hide Digest, Run, NothingBreaks;
    StoredIsPrefix(h, sources, EMPTY, arrivals);
    CompleteIsTruthful(h, EMPTY, arrivals);
    assert TruthfulAt(h, Run(h, EMPTY, arrivals), name);
  }

  /** Every proper part of a file can be committed as complete, whatever size was declared for it. */
  lemma PartIsCommitted(h: seq<Byte> -> string, name: string, source: seq<Byte>, n: nat)
    requires SafeName(name) && 0 < n < |source|
    ensures var arrivals := [Arrival(Init(name, Some(|source|)), FINE),
            Arrival(Put(name, Number(0), source[..n]), FINE),
                             Arrival(Commit(name), FINE)];
            var st := Run(h, EMPTY, arrivals);
            && AllHonest(map[name := source], arrivals) && AllGood(arrivals)
            && name in st.index && st.index[name].complete && name in st.files && st.files[name] == source[..n]
            && st.files[name] != source
  {
    hide SafeName, Digest;
    var arrivals := [Arrival(Init(name, Some(|source|)), FINE), Arrival(Put(name, Number(0), source[..n]), FINE),
                     Arrival(Commit(name), FINE)];
    var a := Reply(h, EMPTY, arrivals[0].request, FINE).0;
    var b := Reply(h, a, arrivals[1].request, FINE).0;
    var c := Reply(h, b, arrivals[2].request, FINE).0;
    assert Content(a, name) == [] && Content(b, name) == source[..n];
    assert Run(h, c, []) == c;
    assert arrivals[1..] == [arrivals[1], arrivals[2]] && arrivals[1..][1..] == [arrivals[2]]
           && arrivals[1..][1..][1..] == [];
    assert Run(h, b, [arrivals[2]]) == c;
    assert Run(h, a, arrivals[1..]) == c;
  }

  // ---- a file whose source changed

  /** Writes to this name carry the source's own bytes; other names do not matter. */
  predicate HonestTo(name: string, source: seq<Byte>, r: Request) {
    r.name == name ==> Honest(map[name := source], r)
  }

  /** The run leaves the file in place: no new init and no delete for it. */
  ghost predicate Continues(name: string, source: seq<Byte>, arrivals: seq<Arrival>) {
    forall k :: 0 <= k < |arrivals| ==>
      HonestTo(name, source, arrivals[k].request) &&
      (arrivals[k].request.name == name ==> !arrivals[k].request.Init? && !arrivals[k].request.Remove?)
  }

  /** A write that takes a file it cannot look at for an empty one, and replaces it. */
  predicate Replaces(name: string, a: Arrival) {
    && a.request.name == name && SafeName(name) && a.request.Put? && Asked(a.request.offset) == Some(0)
    && !a.luck.sizeOk && (a.luck.fileOk || a.luck.touched)
  }

  ghost predicate AnyReplaces(name: string, arrivals: seq<Arrival>) {
    exists k :: 0 <= k < |arrivals| && Replaces(name, arrivals[k])
  }

  /** Init keeps by size alone, so bytes of another source of the same size survive it. */
  predicate Stale(st: Store, name: string, source: seq<Byte>) {
    |source| > 0 && |Content(st, name)| == |source| && Content(st, name) != source
  }

  lemma WriteGoesOn(st: Store, r: Request, luck: Luck, name: string, source: seq<Byte>)
    requires r.Put? && r.name == name && HonestTo(name, source, r)
    ensures var now := Content(PutReply(st, name, r.offset, r.body, luck).0, name);
            && (Content(st, name) <= source ==> now <= source)
            && (Replaces(name, Arrival(r, luck)) ==> now <= source)
            && (|Content(st, name)| == |source| && !Replaces(name, Arrival(r, luck)) ==> now == Content(st, name))
  {
    hide SafeName, PutReply;
    PutContent(st, name, r.offset, r.body, luck);
    var at := Content(st, name);
    if Asked(r.offset) == Some(Seen(st, name, luck)) {
      if at <= source {
        WrittenIsPrefix(st, name, r.body, luck, source);
      }
      if luck.sizeOk && |at| == |source| {
        assert |r.body| == 0 && at + r.body[..0] == at;
      }
    }
  }

  lemma ReplyGoesOn(h: seq<Byte> -> string, st: Store, a: Arrival, name: string, source: seq<Byte>)
    requires HonestTo(name, source, a.request)
    requires a.request.name == name ==> !a.request.Init? && !a.request.Remove?
    ensures var now := Content(Reply(h, st, a.request, a.luck).0, name);
            && (Content(st, name) <= source ==> now <= source)
            && (Replaces(name, a) ==> now <= source)
            && (|Content(st, name)| == |source| && !Replaces(name, a) ==> now == Content(st, name))
  {
    hide SafeName, Digest, HonestTo, PutReply;
    if a.request.name != name {
      OthersUntouched(h, st, a.request, a.luck, name);
    } else if a.request.Put? {
      WriteGoesOn(st, a.request, a.luck, name, source);
    }
  }

  lemma {:induction false} RunGoesOn(h: seq<Byte> -> string, st: Store, arrivals: seq<Arrival>, name: string,
          source: seq<Byte>)
    requires Continues(name, source, arrivals)
    ensures var now := Content(Run(h, st, arrivals), name);
            && (Content(st, name) <= source || AnyReplaces(name, arrivals) ==> now <= source)
            && (|Content(st, name)| == |source| && !AnyReplaces(name, arrivals) ==> now == Content(st, name))
    decreases |arrivals|
  {
    hide Reply, Content, HonestTo, Replaces;
    if |arrivals| > 0 {
      ReplyGoesOn(h, st, arrivals[0], name, source);
      RunGoesOn(h, Reply(h, st, arrivals[0].request, arrivals[0].luck).0, arrivals[1..], name, source);
      assert forall k :: 1 <= k < |arrivals| ==> arrivals[1..][k - 1] == arrivals[k];
    }
  }

  /**
   After an init that declared the source's size, over whatever was stored before: a run of
   writes leaves the file a prefix of the source exactly when the init did not see other bytes
   of the same size, or a write of the run replaced them.
   */
  lemma ReinitialisedStandsIff(h: seq<Byte> -> string, st: Store, name: string, source: seq<Byte>, luck: Luck,
                               arrivals: seq<Arrival>)
    requires InitReply(st, name, Some(|source|), luck).1 == 201 && Continues(name, source, arrivals)
    ensures Content(Run(h, InitReply(st, name, Some(|source|), luck).0, arrivals), name) <= source <==>
            !(luck.sizeOk && Stale(st, name, source)) || AnyReplaces(name, arrivals)
  {
    hide SafeName, Continues, Run, AnyReplaces;
    var t := InitReply(st, name, Some(|source|), luck).0;
    RunGoesOn(h, t, arrivals, name, source);
    if luck.sizeOk && Stale(st, name, source) {
      assert Content(t, name) == Content(st, name);
    } else {
      assert Content(t, name) <= source;
    }
  }

  /** And such bytes are committed as the new source's, with its size. */
  lemma StaleIsCommitted(h: seq<Byte> -> string, st: Store, name: string, source: seq<Byte>)
    requires SafeName(name) && Stale(st, name, source)
    ensures var t := CommitReply(h, InitReply(st, name, Some(|source|), FINE).0, name, FINE).0;
            && name in t.index && t.index[name].complete && t.index[name].size == |source|
            && Content(t, name) == Content(st, name) != source
  {
    hide SafeName, Digest;
  }
}
