/** `uploadIOSImages`: the directory layout iOSSnapshotTestCase produces
    (`ClassName/testName.png`) walked recursively, one upload and one record
    per file, the record named after the file's place in the tree. */
module Ios {
  import opened Common
  import opened Api

  /** A file-system entry: a file with its bytes, or a directory with its
      listing, in the order `listFiles()` returns it. */
  datatype Node = File(name: string, data: seq<byte>) | Dir(name: string, children: seq<Node>)

  /** The position of the last `c` in `s`, if any. */
  function LastIndexOf(s: string, c: char): (r: Option<nat>)
    ensures r.Some? ==> r.value < |s| && s[r.value] == c &&
                        forall j :: r.value < j < |s| ==> s[j] != c
    ensures r.None? ==> forall j :: 0 <= j < |s| ==> s[j] != c
  {
    if s == [] then None
    else if s[|s| - 1] == c then Some(|s| - 1)
    else LastIndexOf(s[..|s| - 1], c)
  }

  /** `File.nameWithoutExtension`: everything before the last dot, or the whole
      name when it has none. */
  function NameWithoutExtension(name: string): (base: string)
    ensures base <= name
    ensures '.' !in name ==> base == name
    ensures '.' in name ==> |base| < |name| && name[|base|] == '.' && '.' !in name[|base| + 1..]
  {
    match LastIndexOf(name, '.')
    case None => name
    case Some(i) => name[..i]
  }

  /** Examples: the extension goes, earlier dots stay, a name without a dot is
      kept whole. */
  lemma NameWithoutExtensionExamples()
    ensures NameWithoutExtension("testLogin.png") == "testLogin"
    ensures NameWithoutExtension("a.b.png") == "a.b"
    ensures NameWithoutExtension("README") == "README"
  {
  }

  /** The uploads of a walk: for each file, the path it is uploaded under, the
      record name it gets and its bytes. */
  datatype Entry = Entry(file: string, record: string, data: seq<byte>)

  /** The reference flattening: the files of a listing, depth first, in listing
      order; a file at `path` under `prefix` is uploaded as `path/name` and
      recorded as `prefix/nameWithoutExtension`, a directory extends both. */
  function Entries(path: string, prefix: string, children: seq<Node>): seq<Entry>
    decreases children
  {
    if children == [] then []
    else EntriesOf(path, prefix, children[0]) + Entries(path, prefix, children[1..])
  }

  function EntriesOf(path: string, prefix: string, child: Node): seq<Entry>
    decreases child
  {
    match child
    case File(n, d) => [Entry(path + "/" + n, prefix + "/" + NameWithoutExtension(n), d)]
    case Dir(n, cs) => Entries(path + "/" + n, prefix + "/" + n, cs)
  }

  /** The number of files in a listing, directories not counted. */
  function FileCount(children: seq<Node>): nat
    decreases children
  {
    if children == [] then 0 else FileCountOf(children[0]) + FileCount(children[1..])
  }

  function FileCountOf(child: Node): nat
    decreases child
  {
    match child
    case File(_, _) => 1
    case Dir(_, cs) => FileCount(cs)
  }

  /** One entry per file and none per directory; every record name lies under
      the prefix, separated by a slash. */
  lemma {:induction false} EntriesPerFile(path: string, prefix: string, children: seq<Node>)
    ensures |Entries(path, prefix, children)| == FileCount(children)
    ensures forall e :: e in Entries(path, prefix, children) ==> prefix + "/" <= e.record
    decreases children
  {
    if children != [] {
      EntriesOfPerFile(path, prefix, children[0]);
      EntriesPerFile(path, prefix, children[1..]);
    }
  }

  lemma {:induction false} EntriesOfPerFile(path: string, prefix: string, child: Node)
    ensures |EntriesOf(path, prefix, child)| == FileCountOf(child)
    ensures forall e :: e in EntriesOf(path, prefix, child) ==> prefix + "/" <= e.record
    decreases child
  {
    match child
    case File(n, d) =>
    case Dir(n, cs) =>
      EntriesPerFile(path + "/" + n, prefix + "/" + n, cs);
      forall e | e in EntriesOf(path, prefix, child) ensures prefix + "/" <= e.record {
        assert (prefix + "/" + n) + "/" <= e.record;
        assert prefix + "/" <= prefix + "/" + n;
      }
  }

  /** The files of the entries, as they are uploaded: path and bytes. */
  function UploadsOf(es: seq<Entry>): (us: seq<Upload>)
    ensures |us| == |es| && forall i :: 0 <= i < |es| ==> us[i] == Upload(es[i].file, es[i].data)
  {
    seq(|es|, i requires 0 <= i < |es| => Upload(es[i].file, es[i].data))
  }

  /** The record names of the entries. */
  function RecordNames(es: seq<Entry>): (names: seq<string>)
    ensures |names| == |es| && forall i :: 0 <= i < |es| ==> names[i] == es[i].record
  {
    seq(|es|, i requires 0 <= i < |es| => es[i].record)
  }

  /** The reference walk: upload the entries' files in order, each with its
      bytes, stopping at the first failure, and record each one under its record
      name with the image id the server gave it. */
  function ReferenceWalk(env: Env, s: Settings, sent: seq<Request>, es: seq<Entry>): Step<seq<ScreenshotRecord>>
  {
    Recorded(RecordNames(es), UploadEach(env, s, sent, UploadsOf(es)))
  }

  /** Walking `e1 + e2` walks `e1`, and then, unless that failed, `e2` from
      where `e1` left the log; the records are those of `e1` then `e2`. */
  lemma ReferenceWalkConcat(env: Env, s: Settings, sent: seq<Request>, e1: seq<Entry>, e2: seq<Entry>)
    ensures var u := ReferenceWalk(env, s, sent, e1);
            ReferenceWalk(env, s, sent, e1 + e2) ==
              if u.result.Err? then u
              else
                var v := ReferenceWalk(env, s, u.sent, e2);
                if v.result.Err? then v else Step(v.sent, Ok(u.result.value + v.result.value))
  {
    assert UploadsOf(e1 + e2) == UploadsOf(e1) + UploadsOf(e2);
    assert RecordNames(e1 + e2) == RecordNames(e1) + RecordNames(e2);
    UploadEachConcat(env, s, sent, UploadsOf(e1), UploadsOf(e2));
    var u := UploadEach(env, s, sent, UploadsOf(e1));
    if u.result.Ok? {
      var v := UploadEach(env, s, u.sent, UploadsOf(e2));
      if v.result.Ok? {
        RecordsConcat(RecordNames(e1), RecordNames(e2), u.result.value, v.result.value);
      }
    }
  }

  /** `uploadIOSImages(dir, prefix)`: list the directory (a file in its place
      makes `listFiles()` null and the walk fail), then walk its listing. */
  function UploadIosImages(env: Env, s: Settings, sent: seq<Request>, path: string, prefix: string, root: Node)
    : (st: Step<seq<ScreenshotRecord>>)
    ensures sent <= st.sent
    ensures PutsAnnounced(env, sent) ==> PutsAnnounced(env, st.sent)
    ensures forall i :: |sent| <= i < |st.sent| ==> !IsRunPost(st.sent[i])
    ensures root.File? ==> st == Step(sent, Err(NotADirectory(path)))
    ensures root.Dir? ==> st == ReferenceWalk(env, s, sent, Entries(path, prefix, root.children))
  {
    match root
    case File(_, _) => Step(sent, Err(NotADirectory(path)))
    case Dir(_, children) => UploadListing(env, s, sent, path, prefix, children)
  }

  /** The `flatMap` over a listing: each entry in turn, the first failure
      aborting the rest; the records of all entries, concatenated. */
  function UploadListing(env: Env, s: Settings, sent: seq<Request>, path: string, prefix: string, children: seq<Node>)
    : (st: Step<seq<ScreenshotRecord>>)
    ensures sent <= st.sent
    ensures PutsAnnounced(env, sent) ==> PutsAnnounced(env, st.sent)
    ensures forall i :: |sent| <= i < |st.sent| ==> !IsRunPost(st.sent[i])
    ensures st == ReferenceWalk(env, s, sent, Entries(path, prefix, children))
    decreases children
  {
    if children == [] then
      assert Records([], []) == [];
      Step(sent, Ok([]))
    else
      ReferenceWalkConcat(env, s, sent, EntriesOf(path, prefix, children[0]), Entries(path, prefix, children[1..]));
      var first := UploadNode(env, s, sent, path, prefix, children[0]);
      match first.result
      case Err(e) => Step(first.sent, Err(e))
      case Ok(recs) =>
        var rest := UploadListing(env, s, first.sent, path, prefix, children[1..]);
        match rest.result
        case Err(e) => Step(rest.sent, Err(e))
        case Ok(more) =>
          Step(rest.sent, Ok(recs + more))
  }

  /** One entry of a listing: a directory is walked with `/name` added to the
      path and to the prefix; a file is uploaded under its path and recorded as
      `prefix/nameWithoutExtension` with the image id the server gave. */
  function UploadNode(env: Env, s: Settings, sent: seq<Request>, path: string, prefix: string, child: Node)
    : (st: Step<seq<ScreenshotRecord>>)
    ensures sent <= st.sent
    ensures PutsAnnounced(env, sent) ==> PutsAnnounced(env, st.sent)
    ensures forall i :: |sent| <= i < |st.sent| ==> !IsRunPost(st.sent[i])
    ensures st == ReferenceWalk(env, s, sent, EntriesOf(path, prefix, child))
    decreases child
  {
    match child
    case Dir(n, cs) => UploadListing(env, s, sent, path + "/" + n, prefix + "/" + n, cs)
    case File(n, d) =>
      var es := EntriesOf(path, prefix, child);
      assert UploadsOf(es) == [Upload(path + "/" + n, d)];
      assert UploadsOf(es)[1..] == [];
      var up := UploadImage(env, s, sent, path + "/" + n, d);
      match up.result
      case Err(e) => Step(up.sent, Err(e))
      case Ok(reply) =>
        var rec := ScreenshotRecord(prefix + "/" + NameWithoutExtension(n), reply.id);
        assert UploadEach(env, s, up.sent, []) == Step(up.sent, Ok([]));
        assert [reply] + [] == [reply];
        assert Records(RecordNames(es), [reply]) == [rec];
        Step(up.sent, Ok([rec]))
  }

  /** A successful walk from the top of the tree yields one record per file,
      each named `/dir/.../nameWithoutExtension`. */
  lemma IosRecordPerFile(env: Env, s: Settings, sent: seq<Request>, path: string, root: Node)
    requires UploadIosImages(env, s, sent, path, "", root).result.Ok?
    ensures root.Dir?
    ensures |UploadIosImages(env, s, sent, path, "", root).result.value| == FileCount(root.children)
    ensures forall r :: r in UploadIosImages(env, s, sent, path, "", root).result.value ==> "/" <= r.name
  {
    var recs := UploadIosImages(env, s, sent, path, "", root).result.value;
    var es := Entries(path, "", root.children);
    EntriesPerFile(path, "", root.children);
    assert recs == Records(RecordNames(es), UploadEach(env, s, sent, UploadsOf(es)).result.value);
    forall r | r in recs ensures "/" <= r.name {
      var i :| 0 <= i < |recs| && recs[i] == r;
      assert es[i] in es;
    }
  }
}
