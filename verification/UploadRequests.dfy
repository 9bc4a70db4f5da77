/** What the handlers answer, and where the files they name are. */
module UploadRequests {
  import opened Bytes
  import opened UploadModel
  import opened Wrappers

  // ---- file names

  /** The parts of a path between its slashes. */
  function Parts(path: string): (parts: seq<string>)
    ensures |parts| > 0
  {
    if |path| == 0 then [""]
    else
      var rest := Parts(path[1..]);
      if path[0] == '/' then [""] + rest else [[path[0]] + rest[0]] + rest[1..]
  }

  /** The directory or file that parts lead to from the root: nothing and '.' stay, '..' goes up. */
  function Resolved(parts: seq<string>): seq<string> {
    if |parts| == 0 then [] else
    var front, last := Resolved(parts[..|parts| - 1]), parts[|parts| - 1];
    if last == "" || last == "." then front
    else if last == ".." then (if |front| == 0 then [] else front[..|front| - 1])
    else front + [last]
  }

  lemma {:induction false} OnePart(name: string)
    requires forall i :: 0 <= i < |name| ==> name[i] != '/'
    ensures Parts(name) == [name]
    decreases |name|
  {
    if |name| > 0 {
      OnePart(name[1..]);
      assert [name[0]] + name[1..] == name;
    }
  }

  /** One more character in front: a slash opens a part, anything else joins the first. */
  function Fronted(c: char, parts: seq<string>): seq<string>
    requires |parts| > 0
  {
    if c == '/' then [""] + parts else [[c] + parts[0]] + parts[1..]
  }

  lemma PartsStep(c: char, path: string)
    ensures Parts([c] + path) == Fronted(c, Parts(path))
  {
    assert ([c] + path)[1..] == path;
  }

  lemma FrontedMore(c: char, a: seq<string>, b: seq<string>)
    requires |a| > 0
    ensures Fronted(c, a + b) == Fronted(c, a) + b
  {
    assert (a + b)[1..] == a[1..] + b;
  }

  lemma {:induction false} PartsOfJoined(dir: string, name: string)
    ensures Parts(dir + "/" + name) == Parts(dir) + Parts(name)
    decreases |dir|
  {
    hide Parts, Fronted;
    if |dir| == 0 {
      assert dir + "/" + name == ['/'] + name;
      PartsStep('/', name);
      assert Parts(dir) == [""] by { NoParts(dir); }
      assert Fronted('/', Parts(name)) == [""] + Parts(name) by { Slash(Parts(name)); }
    } else {
      var c, rest := dir[0], dir[1..];
      PartsOfJoined(rest, name);
      assert dir == [c] + rest && dir + "/" + name == [c] + (rest + "/" + name);
      PartsStep(c, rest);
      PartsStep(c, rest + "/" + name);
      FrontedMore(c, Parts(rest), Parts(name));
    }
  }

  lemma NoParts(path: string)
    requires |path| == 0
    ensures Parts(path) == [""]
  {
  }

  lemma Slash(parts: seq<string>)
    requires |parts| > 0
    ensures Fronted('/', parts) == [""] + parts
  {
  }

  /** The server joins its directory and a name with one slash, if the directory does not end in one. */
  function PathOf(dir: string, name: string): string {
    if |dir| == 0 then name else if dir[|dir| - 1] == '/' then dir + name else dir + "/" + name
  }

  lemma ResolvedMore(parts: seq<string>, last: string)
    ensures last == "" ==> Resolved(parts + [last]) == Resolved(parts)
    ensures last != "" && last != "." && last != ".." ==> Resolved(parts + [last]) == Resolved(parts) + [last]
  {
    assert (parts + [last])[..|parts|] == parts;
  }

  /** A file of a safe name lies right inside the directory, under just that name. */
  lemma SafeNameStaysInside(dir: string, name: string)
    requires SafeName(name)
    ensures Resolved(Parts(PathOf(dir, name))) == Resolved(Parts(dir)) + [name]
  {
    hide Parts, Resolved;
    OnePart(name);
    if |dir| == 0 {
      NoParts(dir);
      ResolvedMore([], "");
      ResolvedMore([], name);
      assert [] + [""] == [""] && [] + [name] == [name];
    } else if dir[|dir| - 1] == '/' {
      var front := dir[..|dir| - 1];
      assert dir == front + "/" && front + "/" + "" == dir;
      PartsOfJoined(front, "");
      PartsOfJoined(front, name);
      NoParts("");
      ResolvedMore(Parts(front), "");
      ResolvedMore(Parts(front), name);
    } else {
      PartsOfJoined(dir, name);
      ResolvedMore(Parts(dir), name);
    }
  }

  /** Two safe names are never the same file. */
  lemma SafeNamesApart(dir: string, a: string, b: string)
    requires SafeName(a) && SafeName(b)
    ensures Resolved(Parts(PathOf(dir, a))) == Resolved(Parts(PathOf(dir, b))) <==> a == b
  {
    hide Parts, Resolved, SafeName;
    SafeNameStaysInside(dir, a);
    SafeNameStaysInside(dir, b);
    var front := Resolved(Parts(dir));
    assert (front + [a])[|front|] == a && (front + [b])[|front|] == b;
  }

  /** Letters, digits and four signs, and at most 200 of them; but not the two names of directories. */
  lemma SafeNameIff(name: string)
    ensures SafeName(name) <==>
            && 1 <= |name| <= 200 && name != ['.'] && name != ['.', '.']
            && forall i :: 0 <= i < |name| ==>
                 var c := name[i] as int;
                 65 <= c <= 90 || 97 <= c <= 122 || 48 <= c <= 57 || c == 46 || c == 95 || c == 45 || c == 43
  {
  }

  // ---- answers

  /** What is wrong with a request whatever is stored: its name, the size it declares, or its offset. */
  predicate Malformed(r: Request) {
    || !SafeName(r.name)
    || (r.Init? && r.declared.None?)
    || (r.Put? && (r.offset.Unreadable? || (r.offset.Number? && !(0 <= r.offset.value <= 2147483647))))
  }

  function OffsetOf(r: Request): int
    requires r.Put?
  {
    if r.offset.Number? then r.offset.value else 0
  }

  /** What the handler has to do to the file does not work. */
  predicate FileFails(st: Store, r: Request, luck: Luck) {
    && !luck.fileOk
    && match r
       case Init(name, declared) => declared.Some? && !(0 < declared.value == Seen(st, name, luck))
       case Put(_, _, _) => true
       case Commit(_) => false
       case Remove(_) => false
  }

  /** The file to commit is not there, or neither file nor record could be removed. */
  predicate NotFound(st: Store, r: Request, luck: Luck) {
    match r
    case Commit(name) => name !in st.files
    case Remove(name) => !luck.indexOk && !(luck.fileOk && name in st.files)
    case _ => false
  }

  /** Every answer, of every handler. */
  lemma AnswersMean(h: seq<Byte> -> string, st: Store, r: Request, luck: Luck)
    ensures var status := Reply(h, st, r, luck).1;
            status ==
            if Malformed(r) then 400
            else if r.Put? && OffsetOf(r) != Seen(st, r.name, luck) then 409
            else if NotFound(st, r, luck) then 404
            else if FileFails(st, r, luck) || (r.Commit? && !luck.indexOk) then 500
            else if r.Init? then 201 else 200
  {
    hide SafeName, Digest, Written;
  }

  /** A refused request changes nothing, and a failed one nothing but its file. */
  lemma RefusalsChangeNothing(h: seq<Byte> -> string, st: Store, r: Request, luck: Luck)
    ensures var (t, status) := Reply(h, st, r, luck);
            && (status == 400 || status == 409 || status == 404 ==> t == st)
            && (status == 500 ==> t.index == st.index && (r.Commit? || !luck.touched ==> t == st))
  {
    hide SafeName, Digest, Written;
  }

  /** What a taken request leaves of its file and record, if the index takes the update. */
  lemma TakenRequests(h: seq<Byte> -> string, st: Store, r: Request, luck: Luck)
    requires Reply(h, st, r, luck).1 < 400
    ensures var (t, name) := (Reply(h, st, r, luck).0, r.name);
            var now := Content(t, name);
            var recorded := luck.indexOk && name in t.index;
            match r
            case Init(_, declared) =>
              && now == (if luck.sizeOk && declared == Some(|Content(st, name)|) then Content(st, name) else [])
              && (luck.indexOk ==> recorded && t.index[name] == Record(declared.value, "", false))
            case Put(_, _, body) =>
              && now == (if luck.sizeOk then Content(st, name) + body else body)
              && (luck.indexOk ==>
                    recorded && t.index[name].size == (if luck.sizeOk then |now| else 0) && !t.index[name].complete)
            case Commit(_) =>
              && t.files == st.files && recorded && t.index[name].complete
              && t.index[name].size == (if luck.sizeOk then |now| else 0)
              && t.index[name].sha256 == (if luck.readOk then h(now) else "")
            case Remove(_) => (luck.fileOk ==> name !in t.files) && (luck.indexOk ==> name !in t.index)
  {
    hide SafeName;
    if r.Put? {
      assert r.body[..|r.body|] == r.body;
      assert Content(st, r.name) == [] ==> Content(st, r.name) + r.body == r.body;
    }
  }
}
