/** The share server's request handlers, over the files and the index they update. */
module FileApiObject {
  import opened Bytes
  import opened UploadModel
  import opened Wrappers

  class FileApi {
    const digest: seq<Byte> -> string
    var files: map<string, seq<Byte>>
    var index: map<string, Record>

    function View(): Store
      reads this
    {
      Store(files, index)
    }

    constructor (digest: seq<Byte> -> string)
      ensures this.digest == digest && View() == EMPTY
    {
      this.digest, files, index := digest, map[], map[];
    }

    /** Replaces a file's content; a failure may leave it empty, or with part of the content. */
    method WriteFile(name: string, content: seq<Byte>, luck: Luck) returns (ok: bool)
      modifies this`files
      ensures ok == luck.fileOk
      ensures files ==
              if ok then old(files)[name := content]
              else if luck.touched then old(files)[name := content[..Min(luck.written, |content|)]]
              else old(files)
    {
      if luck.fileOk {
        files := files[name := content];
      } else if luck.touched {
        files := files[name := content[..Min(luck.written, |content|)]];
      }
      ok := luck.fileOk;
    }

    /** Adds to a file; a failure may leave part of the content added. */
    method AppendFile(name: string, content: seq<Byte>, luck: Luck) returns (ok: bool)
      modifies this`files
      ensures ok == luck.fileOk
      ensures files ==
              if ok then old(files)[name := Content(old(View()), name) + content]
              else if luck.touched
                  then old(files)[name := Content(old(View()), name) + content[..Min(luck.written, |content|)]]
              else old(files)
    {
      var received := if name in files then files[name] else [];
      if luck.fileOk {
        files := files[name := received + content];
      } else if luck.touched {
        files := files[name := received + content[..Min(luck.written, |content|)]];
      }
      ok := luck.fileOk;
    }

    method Upsert(name: string, r: Record, luck: Luck) returns (ok: bool)
      modifies this`index
      ensures ok == luck.indexOk && index == if ok then old(index)[name := r] else old(index)
    {
      if luck.indexOk {
        index := index[name := r];
      }
      ok := luck.indexOk;
    }

    /** A file that is not there, or cannot be looked at, has size 0. */
    method FileSize(name: string, luck: Luck) returns (size: nat)
      ensures size == Seen(View(), name, luck)
    {
      size := if luck.sizeOk && name in files then |files[name]| else 0;
    }

    /** The digest of a file in letters, empty when it cannot be read. */
    method FileDigest(name: string, luck: Luck) returns (letters: string)
      requires name in files
      ensures letters == if luck.readOk then Digest(digest, Content(View(), name)) else ""
    {
      letters := if luck.readOk then Digest(digest, files[name]) else "";
    }

    method Init(name: string, declared: Option<int>, luck: Luck) returns (status: nat)
      modifies this
      ensures (View(), status) == InitReply(old(View()), name, declared, luck)
      ensures status == 201 ==>
        Content(View(), name) ==
        if 0 < declared.value == Seen(old(View()), name, luck) then Content(old(View()), name) else []
    {
      hide SafeName;
      if !SafeName(name) {
        return 400;
      }
      if declared.None? {
        return 400;
      }
      var existing := FileSize(name, luck);
      if declared.value > 0 && declared.value == existing {
        assert name in files;
      } else {
        var ok := WriteFile(name, [], luck);
        if !ok {
          return 500;
        }
      }
      var record := RecordOf(View(), name).(size := declared.value, complete := false, sha256 := "");
      var _ := Upsert(name, record, luck);
      status := 201;
    }

    /** A write is applied exactly when its offset is the received length, as far as that can be seen. */
    method Write(name: string, offset: Offset, body: seq<Byte>, luck: Luck) returns (status: nat)
      modifies this
      ensures (View(), status) == PutReply(old(View()), name, offset, body, luck)
      ensures status == 200 <==>
        SafeName(name) && Asked(offset) == Some(Seen(old(View()), name, luck)) && luck.fileOk
      ensures status == 200 && luck.sizeOk ==> Content(View(), name) == Content(old(View()), name) + body
      ensures status == 200 && !luck.sizeOk ==> Content(View(), name) == body
      ensures status == 400 || status == 409 ==> View() == old(View())
    {
      hide SafeName;
      if !SafeName(name) {
        return 400;
      }
      var asked := Asked(offset);
      if asked.None? {
        return 400;
      }
      var current := FileSize(name, luck);
      if asked.value != current {
        return 409;
      }
      assert body[..|body|] == body;
      var written;
      if current == 0 {
        assert forall x: seq<Byte> :: [] + x == x;
        written := WriteFile(name, body, luck);
      } else {
        written := AppendFile(name, body, luck);
      }
      if !written {
        return 500;
      }
      var after := FileSize(name, luck);
      var record := RecordOf(View(), name).(size := after, complete := false);
      var _ := Upsert(name, record, luck);
      status := 200;
    }

    method Commit(name: string, luck: Luck) returns (status: nat)
      modifies this`index
      ensures (View(), status) == CommitReply(digest, old(View()), name, luck)
    {
      hide SafeName, Digest;
      if !SafeName(name) {
        return 400;
      }
      if name !in files {
        return 404;
      }
      var size := FileSize(name, luck);
      var letters := FileDigest(name, luck);
      var record := RecordOf(View(), name).(size := size, sha256 := letters, complete := true);
      var ok := Upsert(name, record, luck);
      status := if ok then 200 else 500;
    }

    method Remove(name: string, luck: Luck) returns (status: nat)
      modifies this
      ensures (View(), status) == RemoveReply(old(View()), name, luck)
    {
      hide SafeName;
      if !SafeName(name) {
        return 400;
      }
      var removedFile := luck.fileOk && name in files;
      if removedFile {
        files := files - {name};
      }
      if luck.indexOk {
        index := index - {name};
      }
      status := if !removedFile && !luck.indexOk then 404 else 200;
    }

    /**
     What a client asks before it resumes: the received length, and the index's view of the file.
     The next write is taken at that length, below the limit, exactly if it sees the same one.
     */
    method Status(name: string, luck: Luck) returns (status: nat, received: nat, record: Record)
      ensures status == if SafeName(name) then 200 else 400
      ensures status == 200 ==> received == Seen(View(), name, luck) && record == RecordOf(View(), name)
      ensures forall body, next: Luck :: status == 200 && received < OFFSET_LIMIT && next.fileOk ==>
        (PutReply(View(), name, Number(received), body, next).1 == 200 <==> received == Seen(View(), name, next))
    {
      hide SafeName;
      if !SafeName(name) {
        return 400, 0, Record(0, "", false);
      }
      received := FileSize(name, luck);
      status, record := 200, RecordOf(View(), name);
    }
  }
}
