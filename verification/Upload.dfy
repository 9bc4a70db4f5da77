/** The share server's resumable upload: files, their index, and the four requests that change them. */
module UploadModel {
  import opened Bytes
  import opened Wrappers

  datatype Record = Record(size: int, sha256: string, complete: bool)

  datatype Store = Store(files: map<string, seq<Byte>>, index: map<string, Record>)

  const OFFSET_LIMIT := 0x8000_0000

  /** The offset parameter: absent, not a number, or a number. */
  datatype Offset = Absent | Unreadable | Number(value: int)

  datatype Request =
    | Init(name: string, declared: Option<int>)
    | Put(name: string, offset: Offset, body: seq<Byte>)
    | Commit(name: string)
    | Remove(name: string)

  /**
   How the calls underneath went: whether the file operation succeeded; if not, whether it
   had got as far as opening the file and how many bytes it had written; whether the file
   could be read for its digest, and looked at for its size; and whether the index took the
   update.
   */
  datatype Luck = Luck(fileOk: bool, touched: bool, written: nat, readOk: bool, sizeOk: bool, indexOk: bool) {
    predicate Good() {
      fileOk && readOk && sizeOk && indexOk
    }
  }

  predicate SafeChar(c: char) {
    'a' <= c <= 'z' || 'A' <= c <= 'Z' || '0' <= c <= '9' || c == '.' || c == '_' || c == '-' || c == '+'
  }

  predicate SafeName(name: string) {
    0 < |name| <= 200 && name != "." && name != ".." && forall i :: 0 <= i < |name| ==> SafeChar(name[i])
  }

  function Content(st: Store, name: string): seq<Byte> {
    if name in st.files then st.files[name] else []
  }

  /** The size the handlers see; a file they cannot look at counts as empty. */
  function Seen(st: Store, name: string, luck: Luck): nat {
    if luck.sizeOk then |Content(st, name)| else 0
  }

  function RecordOf(st: Store, name: string): Record {
    if name in st.index then st.index[name] else Record(0, "", false)
  }

  function Min(a: nat, b: nat): nat {
    if a < b then a else b
  }

  /** The offset asked for; a number an int cannot hold is refused like a malformed one. */
  function Asked(offset: Offset): Option<nat> {
    match offset
    case Absent => Some(0)
    case Unreadable => None
    case Number(v) => if v < 0 || v >= OFFSET_LIMIT then None else Some(v)
  }

  function SetIndex(st: Store, name: string, r: Record, ok: bool): Store {
    if ok then st.(index := st.index[name := r]) else st
  }

  function InitReply(st: Store, name: string, declared: Option<int>, luck: Luck): (Store, nat) {
    if !SafeName(name) || declared.None? then (st, 400)
    else
      var size := declared.value;
      var keep := size > 0 && size == Seen(st, name, luck);
      if !keep && !luck.fileOk then (if luck.touched then st.(files := st.files[name := []]) else st, 500)
      else
        var t := if keep then st else st.(files := st.files[name := []]);
        (SetIndex(t, name, Record(size, "", false), luck.indexOk), 201)
  }

  /** How many bytes a write that got past its checks has put into the file. */
  function Added(body: seq<Byte>, luck: Luck): nat {
    if luck.fileOk then |body| else if luck.touched then Min(luck.written, |body|) else 0
  }

  /** The file after a write: a file seen as empty is written anew, any other is added to. */
  function Written(st: Store, name: string, body: seq<Byte>, luck: Luck): seq<Byte> {
    if !luck.fileOk && !luck.touched then Content(st, name)
    else (if Seen(st, name, luck) == 0 then [] else Content(st, name)) + body[..Min(Added(body, luck), |body|)]
  }

  function PutReply(st: Store, name: string, offset: Offset, body: seq<Byte>, luck: Luck): (Store, nat) {
    if !SafeName(name) || Asked(offset).None? then (st, 400)
    else if Asked(offset).value != Seen(st, name, luck) then (st, 409)
    else if !luck.fileOk then
      (if luck.touched then st.(files := st.files[name := Written(st, name, body, luck)]) else st, 500)
    else
      var t := st.(files := st.files[name := Written(st, name, body, luck)]);
      (SetIndex(t, name, RecordOf(st, name).(size := Seen(t, name, luck), complete := false), luck.indexOk), 200)
  }

  /** Whatever happens to a write, the file is as it was or ends in a front part of the body. */
  lemma PutContent(st: Store, name: string, offset: Offset, body: seq<Byte>, luck: Luck)
    ensures Added(body, luck) <= |body|
    ensures Content(PutReply(st, name, offset, body, luck).0, name) ==
            if SafeName(name) && Asked(offset) == Some(Seen(st, name, luck))
            then Written(st, name, body, luck) else Content(st, name)
    ensures luck.sizeOk ==> Written(st, name, body, luck) == Content(st, name) + body[..Added(body, luck)]
  {
    hide SafeName;
    assert Content(st, name) + body[..0] == Content(st, name);
    if |Content(st, name)| == 0 {
      assert Content(st, name) == [];
    }
  }

  /** The digest function, as a name the proofs can treat as opaque. */
  function Digest(h: seq<Byte> -> string, x: seq<Byte>): string {
    h(x)
  }

  function CommitReply(h: seq<Byte> -> string, st: Store, name: string, luck: Luck): (Store, nat) {
    if !SafeName(name) then (st, 400)
    else if name !in st.files then (st, 404)
    else if !luck.indexOk then (st, 500)
    else
      var digest := if luck.readOk then Digest(h, Content(st, name)) else "";
      (SetIndex(st, name, Record(Seen(st, name, luck), digest, true), true), 200)
  }

  /** Deleting an index row that is not there succeeds too, so only a failing index can give 404. */
  function RemoveReply(st: Store, name: string, luck: Luck): (Store, nat) {
    if !SafeName(name) then (st, 400)
    else
      var removed := luck.fileOk && name in st.files;
      var t := if removed then st.(files := st.files - {name}) else st;
      var u := if luck.indexOk then t.(index := t.index - {name}) else t;
      (u, if removed || luck.indexOk then 200 else 404)
  }

  /** A delete of a file that is not there answers 200; 404 takes a failing index, and no file removed. */
  lemma RemoveStatus(st: Store, name: string, luck: Luck)
    ensures RemoveReply(st, name, luck).1 == 404 <==>
            SafeName(name) && !(luck.fileOk && name in st.files) && !luck.indexOk
    ensures SafeName(name) && name !in st.files && luck.Good() ==> RemoveReply(st, name, luck).1 == 200
  {
    hide SafeName;
  }

  function Reply(h: seq<Byte> -> string, st: Store, r: Request, luck: Luck): (Store, nat) {
    match r
    case Init(name, declared) => InitReply(st, name, declared, luck)
    case Put(name, offset, body) => PutReply(st, name, offset, body, luck)
    case Commit(name) => CommitReply(h, st, name, luck)
    case Remove(name) => RemoveReply(st, name, luck)
  }

  datatype Arrival = Arrival(request: Request, luck: Luck)

  /** The store after a sequence of requests, in the order the server handled them. */
  function Run(h: seq<Byte> -> string, st: Store, arrivals: seq<Arrival>): Store
    decreases |arrivals|
  {
    if |arrivals| == 0 then st
    else Run(h, Reply(h, st, arrivals[0].request, arrivals[0].luck).0, arrivals[1..])
  }

  const EMPTY := Store(map[], map[])
  const FINE := Luck(true, true, 0, true, true, true)

  lemma OthersUntouched(h: seq<Byte> -> string, st: Store, r: Request, luck: Luck, name: string)
    requires name != r.name
    ensures var t := Reply(h, st, r, luck).0;
            && (name in t.files <==> name in st.files) && Content(t, name) == Content(st, name)
            && (name in t.index <==> name in st.index) && RecordOf(t, name) == RecordOf(st, name)
  {
    hide SafeName, Digest;
  }

  // ---- the stored file is a prefix of its source

  function Source(sources: map<string, seq<Byte>>, name: string): seq<Byte> {
    if name in sources then sources[name] else []
  }

  /** A write carries the source's own bytes from the offset it names. */
  predicate Honest(sources: map<string, seq<Byte>>, r: Request) {
    r.Put? && Asked(r.offset).Some? ==>
      var at := Asked(r.offset).value;
      at + |r.body| <= |Source(sources, r.name)| && r.body == Source(sources, r.name)[at..at + |r.body|]
  }

  ghost predicate AllHonest(sources: map<string, seq<Byte>>, arrivals: seq<Arrival>) {
    forall k :: 0 <= k < |arrivals| ==> Honest(sources, arrivals[k].request)
  }

  ghost predicate Prefixes(sources: map<string, seq<Byte>>, st: Store) {
    forall name :: name in st.files ==> st.files[name] <= Source(sources, name)
  }

  lemma ExtendPrefix(source: seq<Byte>, front: seq<Byte>, body: seq<Byte>, n: nat)
    requires front <= source && |front| + |body| <= |source|
    requires body == source[|front|..|front| + |body|]
    requires n <= |body|
    ensures front + body[..n] <= source
  {
  }

  lemma WrittenIsPrefix(st: Store, name: string, body: seq<Byte>, luck: Luck, source: seq<Byte>)
    requires Content(st, name) <= source
    requires var at := Seen(st, name, luck); at + |body| <= |source| && body == source[at..at + |body|]
    ensures Written(st, name, body, luck) <= source
  {
    var k := Min(Added(body, luck), |body|);
    if Seen(st, name, luck) == 0 {
      ExtendPrefix(source, [], body, k);
    } else {
      ExtendPrefix(source, Content(st, name), body, k);
    }
  }

  lemma ReplyKeepsPrefixes(h: seq<Byte> -> string, sources: map<string, seq<Byte>>, st: Store, r: Request, luck: Luck)
    requires Prefixes(sources, st) && Honest(sources, r)
    ensures Prefixes(sources, Reply(h, st, r, luck).0)
  {
    hide SafeName;
    if r.Put? && Asked(r.offset) == Some(Seen(st, r.name, luck)) {
      PutContent(st, r.name, r.offset, r.body, luck);
      WrittenIsPrefix(st, r.name, r.body, luck, Source(sources, r.name));
    }
  }

  /**
   Whatever requests arrive, in any order, lost, repeated or late, and however writes fail
   part of the way: as long as each write carries the source's bytes at its offset, every
   stored file is a prefix of its source.
   */
  lemma {:induction false} StoredIsPrefix(h: seq<Byte> -> string, sources: map<string, seq<Byte>>, st: Store,
                                          arrivals: seq<Arrival>)
    requires Prefixes(sources, st) && AllHonest(sources, arrivals)
    ensures Prefixes(sources, Run(h, st, arrivals))
    decreases |arrivals|
  {
    hide Prefixes, Honest, Reply;
    if |arrivals| > 0 {
      ReplyKeepsPrefixes(h, sources, st, arrivals[0].request, arrivals[0].luck);
      StoredIsPrefix(h, sources, Reply(h, st, arrivals[0].request, arrivals[0].luck).0, arrivals[1..]);
    }
  }

  // ---- retransmission

  /**
   A write that was applied is refused when it arrives again, and changes nothing; only the
   first write of a file that cannot be looked at is taken again.
   */
  lemma RepeatIsRefused(st: Store, name: string, offset: Offset, body: seq<Byte>, luck: Luck, again: Luck)
    requires |body| > 0 && PutReply(st, name, offset, body, luck).1 == 200
    ensures var t := PutReply(st, name, offset, body, luck).0;
            PutReply(t, name, offset, body, again) == (t, 409) <==> again.sizeOk || Asked(offset) != Some(0)
  {
    hide SafeName;
    PutContent(st, name, offset, body, luck);
    var t := PutReply(st, name, offset, body, luck).0;
    assert |Written(st, name, body, luck)| == Seen(st, name, luck) + |body|;
    assert Seen(t, name, again) == if again.sizeOk then Seen(st, name, luck) + |body| else 0;
  }

  /** Nothing can be appended once a file has 2^31 bytes: the offset no longer fits. */
  lemma LargeFilesStall(st: Store, name: string, offset: Offset, body: seq<Byte>, luck: Luck)
    ensures (exists o: Offset :: Asked(o).Some? && Asked(o).value == |Content(st, name)|)
            <==> |Content(st, name)| < OFFSET_LIMIT
    ensures |Content(st, name)| >= OFFSET_LIMIT && (luck.sizeOk || Asked(offset) != Some(0)) ==>
              PutReply(st, name, offset, body, luck).0 == st
  {
    hide SafeName;
    if |Content(st, name)| < OFFSET_LIMIT {
      assert Asked(Number(|Content(st, name)|)) == Some(|Content(st, name)|);
    }
  }
}
