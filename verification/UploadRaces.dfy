/**
 Writes to one file from several connections at once: the handler takes no lock between the
 check of the offset and the write, so steps of other requests may come between the two.
 */
module UploadRaces {
  import opened Bytes
  import opened UploadModel
  import opened Wrappers

  /** A request between its check and its write: the size it saw, and the bytes it brings. */
  datatype Writer = Writer(seen: nat, body: seq<Byte>)

  datatype File = File(content: seq<Byte>, writers: map<nat, Writer>)

  /** Empty stands for an init or a delete of the file. */
  datatype Step =
    | Check(id: nat, offset: Offset, body: seq<Byte>, sizeOk: bool)
    | Write(id: nat, luck: Luck)
    | Empty

  /** A file seen as empty is written anew, whatever has come in since; any other is added to. */
  function Wrote(content: seq<Byte>, w: Writer, luck: Luck): seq<Byte> {
    if !luck.fileOk && !luck.touched then content
    else (if w.seen == 0 then [] else content) + w.body[..Min(Added(w.body, luck), |w.body|)]
  }

  function Next(f: File, s: Step): File {
    match s
    case Check(id, offset, body, sizeOk) =>
      var seen := if sizeOk then |f.content| else 0;
      if id in f.writers || Asked(offset) != Some(seen) then f
      else f.(writers := f.writers[id := Writer(seen, body)])
    case Write(id, luck) =>
      if id in f.writers then File(Wrote(f.content, f.writers[id], luck), f.writers - {id}) else f
    case Empty => f.(content := [])
  }

  function After(f: File, steps: seq<Step>): File
    decreases |steps|
  {
    if |steps| == 0 then f else After(Next(f, steps[0]), steps[1..])
  }

  /** A check with its write right behind it does to the file what the handler does in one go. */
  lemma AtOnceIsPut(st: Store, writers: map<nat, Writer>, id: nat, name: string, offset: Offset, body: seq<Byte>,
                    luck: Luck)
    requires SafeName(name) && id !in writers
    ensures var f := After(File(Content(st, name), writers), [Check(id, offset, body, luck.sizeOk), Write(id, luck)]);
            f == File(Content(PutReply(st, name, offset, body, luck).0, name), writers)
  {
    hide SafeName, PutReply, Asked, Next;
    PutContent(st, name, offset, body, luck);
    var f := File(Content(st, name), writers);
    var steps := [Check(id, offset, body, luck.sizeOk), Write(id, luck)];
    var g := Next(f, steps[0]);
    assert steps[1..] == [steps[1]] && steps[1..][1..] == [];
    assert After(g, steps[1..]) == After(Next(g, steps[1]), []);
    CheckThenWrite(st, writers, id, name, offset, body, luck);
  }

  lemma CheckThenWrite(st: Store, writers: map<nat, Writer>, id: nat, name: string, offset: Offset, body: seq<Byte>,
                       luck: Luck)
    requires id !in writers
    ensures Next(Next(File(Content(st, name), writers), Check(id, offset, body, luck.sizeOk)), Write(id, luck)) ==
            File(if Asked(offset) == Some(Seen(st, name, luck)) then Written(st, name, body, luck)
                 else Content(st, name), writers)
  {
    hide Asked;
    if Asked(offset) == Some(Seen(st, name, luck)) {
      assert writers[id := Writer(Seen(st, name, luck), body)] - {id} == writers;
    } else {
      assert writers - {id} == writers;
    }
  }

  // ---- when the file stays a prefix of its source

  /** A request checked or waiting brings the source's bytes from its offset. */
  predicate FromSource(source: seq<Byte>, at: nat, body: seq<Byte>) {
    at + |body| <= |source| && body == source[at..at + |body|]
  }

  predicate HonestStep(source: seq<Byte>, s: Step) {
    s.Check? && Asked(s.offset).Some? ==> FromSource(source, Asked(s.offset).value, s.body)
  }

  ghost predicate AllHonestSteps(source: seq<Byte>, steps: seq<Step>) {
    forall k :: 0 <= k < |steps| ==> HonestStep(source, steps[k])
  }

  ghost predicate Sound(source: seq<Byte>, f: File) {
    forall id :: id in f.writers ==> FromSource(source, f.writers[id].seen, f.writers[id].body)
  }

  /** The source has the same k bytes at a as at b. */
  predicate SameAt(source: seq<Byte>, a: nat, b: nat, k: nat) {
    a + k <= |source| && b + k <= |source| && source[a..a + k] == source[b..b + k]
  }

  /**
   What a write adds belongs where it falls: it begins the file anew, nothing of it gets in, or
   the source has the same bytes at the file's end as at the offset that was checked.
   */
  predicate Fits(source: seq<Byte>, f: File, s: Step) {
    s.Write? && s.id in f.writers && f.writers[s.id].seen != 0 ==>
      var k := Added(f.writers[s.id].body, s.luck);
      k == 0 || SameAt(source, |f.content|, f.writers[s.id].seen, k)
  }

  lemma NextIsSound(source: seq<Byte>, f: File, s: Step)
    requires Sound(source, f) && HonestStep(source, s)
    ensures Sound(source, Next(f, s))
  {
    hide FromSource;
  }

  lemma PrefixOfSource(source: seq<Byte>, at: nat, body: seq<Byte>, k: nat)
    requires FromSource(source, at, body) && k <= |body|
    ensures at + k <= |source| && body[..k] == source[at..at + k]
  {
  }

  lemma AddedIsPrefixIff(source: seq<Byte>, content: seq<Byte>, more: seq<Byte>)
    requires content <= source
    ensures content + more <= source <==>
            |content| + |more| <= |source| && source[|content|..|content| + |more|] == more
  {
    var n := |content| + |more|;
    if content + more <= source {
      assert source[|content|..n] == (content + more)[|content|..];
    }
  }

  lemma WroteIsPrefixIff(source: seq<Byte>, content: seq<Byte>, w: Writer, luck: Luck)
    requires content <= source && FromSource(source, w.seen, w.body)
    ensures Wrote(content, w, luck) <= source <==>
            var k := Added(w.body, luck); w.seen == 0 || k == 0 || SameAt(source, |content|, w.seen, k)
  {
    hide FromSource, Added;
    var k := Added(w.body, luck);
    AddedBounds(w.body, luck);
    PrefixOfSource(source, w.seen, w.body, k);
    var more := w.body[..k];
    if w.seen == 0 {
      assert [] + more == source[..k];
    } else if k == 0 {
      assert content + more == content;
    } else {
      AddedIsPrefixIff(source, content, more);
    }
  }

  lemma AddedBounds(body: seq<Byte>, luck: Luck)
    ensures Added(body, luck) <= |body|
    ensures !luck.fileOk && !luck.touched ==> Added(body, luck) == 0
  {
  }

  lemma NextIsPrefixIff(source: seq<Byte>, f: File, s: Step)
    requires f.content <= source && Sound(source, f)
    ensures Next(f, s).content <= source <==> Fits(source, f, s)
  {
    hide Wrote, SameAt, FromSource, Added;
    if s.Write? && s.id in f.writers {
      WroteIsPrefixIff(source, f.content, f.writers[s.id], s.luck);
    }
  }

  ghost predicate PrefixThroughout(source: seq<Byte>, f: File, steps: seq<Step>)
    decreases |steps|
  {
    f.content <= source && (|steps| > 0 ==> PrefixThroughout(source, Next(f, steps[0]), steps[1..]))
  }

  predicate AllFit(source: seq<Byte>, f: File, steps: seq<Step>)
    decreases |steps|
  {
    |steps| > 0 ==> Fits(source, f, steps[0]) && AllFit(source, Next(f, steps[0]), steps[1..])
  }

  /**
   In any interleaving of checks, writes, inits and deletes, with whatever failures: the file is
   a prefix of its source at every moment exactly when every write adds what belongs where it falls.
   */
  lemma {:induction false} PrefixThroughoutIff(source: seq<Byte>, f: File, steps: seq<Step>)
    requires f.content <= source && Sound(source, f) && AllHonestSteps(source, steps)
    ensures PrefixThroughout(source, f, steps) <==> AllFit(source, f, steps)
    decreases |steps|
  {
    hide Sound, HonestStep, Next, Fits;
    if |steps| > 0 {
      NextIsSound(source, f, steps[0]);
      NextIsPrefixIff(source, f, steps[0]);
      if Fits(source, f, steps[0]) {
        PrefixThroughoutIff(source, Next(f, steps[0]), steps[1..]);
      }
    }
  }

  // ---- one request at a time

  /** No request for the file is checked, and none empties it, while another waits to write. */
  predicate OneAtATime(f: File, steps: seq<Step>)
    decreases |steps|
  {
    |steps| > 0 ==>
      && (|f.writers| > 0 ==> steps[0].Write? || Next(f, steps[0]) == f)
      && OneAtATime(Next(f, steps[0]), steps[1..])
  }

  /** Nobody waits, or one alone, and finds what it saw. */
  predicate Undisturbed(f: File) {
    |f.writers| <= 1 && forall id :: id in f.writers ==> f.writers[id].seen == 0 || f.writers[id].seen == |f.content|
  }

  lemma UndisturbedStep(source: seq<Byte>, f: File, s: Step)
    requires Undisturbed(f) && Sound(source, f) && (|f.writers| > 0 ==> s.Write? || Next(f, s) == f)
    ensures Undisturbed(Next(f, s)) && Fits(source, f, s)
  {
    if s.Write? && s.id in f.writers {
      assert f.writers - {s.id} == map[] by {
        assert f.writers.Keys - {s.id} == {} by {
          assert |f.writers.Keys - {s.id}| == |f.writers.Keys| - 1;
        }
      }
    }
  }

  lemma {:induction false} OneAtATimeFits(source: seq<Byte>, f: File, steps: seq<Step>)
    requires Undisturbed(f) && Sound(source, f) && AllHonestSteps(source, steps) && OneAtATime(f, steps)
    ensures AllFit(source, f, steps)
    decreases |steps|
  {
    hide Sound, HonestStep, Next, Fits, Undisturbed;
    if |steps| > 0 {
      UndisturbedStep(source, f, steps[0]);
      NextIsSound(source, f, steps[0]);
      OneAtATimeFits(source, Next(f, steps[0]), steps[1..]);
    }
  }

  /** So a client that never has two requests for a file under way keeps it a prefix of its source. */
  lemma OneAtATimeIsSafe(source: seq<Byte>, content: seq<Byte>, steps: seq<Step>)
    requires content <= source && AllHonestSteps(source, steps) && OneAtATime(File(content, map[]), steps)
    ensures PrefixThroughout(source, File(content, map[]), steps)
  {
    hide PrefixThroughout, AllFit, OneAtATime, HonestStep;
    OneAtATimeFits(source, File(content, map[]), steps);
    PrefixThroughoutIff(source, File(content, map[]), steps);
  }

  // ---- a write and its retransmission at once

  function Doubled(n: nat, body: seq<Byte>): seq<Step> {
    [Check(0, Number(n), body, true), Check(1, Number(n), body, true), Write(0, FINE), Write(1, FINE)]
  }

  /**
   A write and its retransmission, both checked before either has written, are both added: the
   file is then a prefix only of a source that repeats those very bytes.
   */
  lemma DoubledIff(source: seq<Byte>, n: nat, k: nat)
    requires 0 < n < OFFSET_LIMIT && 0 < k && n + k <= |source|
    ensures var body := source[n..n + k];
            var f := After(File(source[..n], map[]), Doubled(n, body));
            && f == File(source[..n + k] + body, map[])
            && (f.content <= source <==> SameAt(source, n + k, n, k))
  {
    var body := source[n..n + k];
    var steps := Doubled(n, body);
    var w := Writer(n, body);
    var f := File(source[..n], map[]);
    var c := File(source[..n + k], map[1 := w]);
    var d := File(source[..n + k] + body, map[]);
    assert Next(f, steps[0]) == File(source[..n], map[0 := w]);
    assert Next(File(source[..n], map[0 := w]), steps[1]) == File(source[..n], map[0 := w, 1 := w]);
    assert Next(File(source[..n], map[0 := w, 1 := w]), steps[2]) == c by {
      assert body[..|body|] == body && source[..n] + body == source[..n + k];
      assert map[0 := w, 1 := w] - {0} == map[1 := w];
    }
    assert Next(c, steps[3]) == d by {
      assert body[..|body|] == body;
      assert map[1 := w] - {1} == map[];
    }
    FourSteps(f, steps);
    NextIsPrefixIff(source, c, steps[3]);
  }

  lemma FourSteps(f: File, steps: seq<Step>)
    requires |steps| == 4
    ensures After(f, steps) == Next(Next(Next(Next(f, steps[0]), steps[1]), steps[2]), steps[3])
  {
    hide Next;
    assert steps[1..][1..] == steps[2..] && steps[2..][1..] == steps[3..] && steps[3..][1..] == [];
    var a := Next(f, steps[0]);
    var b := Next(a, steps[1]);
    var c := Next(b, steps[2]);
    assert After(c, steps[3..]) == Next(c, steps[3]);
    assert After(b, steps[2..]) == After(c, steps[3..]);
    assert After(a, steps[1..]) == After(b, steps[2..]);
  }
}
