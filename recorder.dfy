/** The `Recorder` object and its entry point `doRecorder`: check the channel
    and the directory, upload every screenshot (the iOSSnapshotTestCase layout
    or the Android metadata), then submit one run that lists the records. */
module Recorder {
  import opened Common
  import opened Tiles
  import opened Api
  import opened Ios
  import opened Android

  /** The recorder's mutable configuration, as the command line sets it. */
  class Recorder {
    var branch: Option<string>
    var clean: Option<bool>
    var commit: Option<string>
    var production: bool
    var iosSnapshotTestCase: bool
    var githubRepo: Option<string>
    var apiKey: Option<string>
    var apiSecret: Option<string>

    /** `Recorder()`: a clean work tree, not production, the Android layout, an
        empty repository name, and nothing else set. */
    constructor()
      ensures branch == None && clean == Some(true) && commit == None
      ensures !production && !iosSnapshotTestCase
      ensures githubRepo == Some("") && apiKey == None && apiSecret == None
    {
      branch, clean, commit := None, Some(true), None;
      production, iosSnapshotTestCase := false, false;
      githubRepo, apiKey, apiSecret := Some(""), None, None;
    }

    /** `setGithubRepo`: replaces the repository name and nothing else. */
    method SetGithubRepo(repo: Option<string>)
      modifies this
      ensures githubRepo == repo
      ensures branch == old(branch) && clean == old(clean) && commit == old(commit)
      ensures production == old(production) && iosSnapshotTestCase == old(iosSnapshotTestCase)
      ensures apiKey == old(apiKey) && apiSecret == old(apiSecret)
    {
      githubRepo := repo;
    }

    /** The fields the pipeline reads. */
    function Config(): (c: Settings)
      reads this
      ensures c.branch == branch && c.clean == clean && c.commit == commit
      ensures c.production == production && c.iosSnapshotTestCase == iosSnapshotTestCase
      ensures c.githubRepo == githubRepo && c.apiKey == apiKey && c.apiSecret == apiSecret
    {
      Settings(branch, clean, commit, production, iosSnapshotTestCase, githubRepo, apiKey, apiSecret)
    }

    /** `doRecorder` as a member of the recorder: the pipeline run on the
        recorder's current fields, which it does not change. */
    method Record(env: Env, channel: string, dir: string, inputs: Inputs) returns (st: Step<()>)
      requires AllTilesAgree(inputs)
      ensures st == DoRecorder(env, Config(), channel, dir, inputs)
    {
      st := DoRecorder(env, Config(), channel, dir, inputs);
    }
  }

  /** What `doRecorder` finds on disk: the parsed metadata, the image provider
      for the directory (or bundle zip), and the directory tree. */
  datatype Inputs = Inputs(metadata: seq<Screenshot>, provider: Provider, tree: Node)

  /** Kotlin's `Boolean?.toString()`. */
  function BoolText(b: Option<bool>): (text: string)
    ensures b == Some(true) <==> text == "true"
    ensures b == Some(false) <==> text == "false"
    ensures b == None <==> text == "null"
  {
    match b
    case None => "null"
    case Some(v) => if v then "true" else "false"
  }

  /** The keys of a form, in order. */
  function Keys(fields: seq<Field>): (keys: seq<string>)
    ensures |keys| == |fields| && forall i :: 0 <= i < |fields| ==> keys[i] == fields[i].key
  {
    seq(|fields|, i requires 0 <= i < |fields| => fields[i].key)
  }

  /** The form `makeRun` submits. */
  function RunFields(s: Settings, channel: string, json: string, key: string, secret: string): seq<Field>
  {
    [Field("channel", Some(channel)), Field("screenshot-records", Some(json)),
     Field("github-repo", s.githubRepo), Field("commit", s.commit),
     Field("is-clean", Some(BoolText(s.clean))), Field("branch", s.branch),
     Field("is-trunk", Some(BoolText(Some(s.production)))),
     Field("api-key", Some(key)), Field("api-secret-key", Some(secret))]
  }

  /** The run form has exactly these keys in this order; the channel, the
      records, the work-tree state (`null` when unknown), the trunk flag and the
      credentials are sent as text; the repository, the commit and the branch
      are passed through, `null` when unset. */
  lemma RunFieldsLayout(s: Settings, channel: string, json: string, key: string, secret: string)
    ensures Keys(RunFields(s, channel, json, key, secret)) ==
            ["channel", "screenshot-records", "github-repo", "commit", "is-clean",
             "branch", "is-trunk", "api-key", "api-secret-key"]
    ensures var f := RunFields(s, channel, json, key, secret);
            f[0].value == Some(channel) && f[1].value == Some(json) &&
            f[2].value == s.githubRepo && f[3].value == s.commit && f[5].value == s.branch &&
            f[4].value == Some(BoolText(s.clean)) && f[6].value == Some(BoolText(Some(s.production))) &&
            f[7].value == Some(key) && f[8].value == Some(secret)
  {
  }

  /** `makeRun`: serialise the records, resolve the credentials, submit the run
      and fail on any status but 200. */
  function MakeRun(env: Env, s: Settings, sent: seq<Request>, channel: string, records: seq<ScreenshotRecord>)
    : (st: Step<()>)
    ensures sent <= st.sent
    ensures PutsAnnounced(env, sent) ==> PutsAnnounced(env, st.sent)
    ensures !HasCredentials(env, s) ==> st == Step(sent, Err(MissingCredentials))
    ensures HasCredentials(env, s) ==>
              var post := Post(BuildUrl(RunPath),
                               RunFields(s, channel, env.recordsJson(records),
                                         ApiKey(env, s).value, ApiSecret(env, s).value));
              st.sent == sent + [post] && IsRunPost(post) &&
              st.result == (if env.status(sent, post) == 200 then Ok(()) else Err(RunFailed(env.status(sent, post))))
  {
    if !HasCredentials(env, s) then Step(sent, Err(MissingCredentials))
    else
      var json := env.recordsJson(records);
      var post := Post(BuildUrl(RunPath), RunFields(s, channel, json, ApiKey(env, s).value, ApiSecret(env, s).value));
      AppendRequest(env, sent, post);
      var code := env.status(sent, post);
      if code != 200 then Step(sent + [post], Err(RunFailed(code)))
      else Step(sent + [post], Ok(()))
  }

  /** The stitching precondition for every screenshot of the metadata. */
  predicate AllTilesAgree(inputs: Inputs)
  {
    All(AgreesIn(inputs.provider), inputs.metadata)
  }

  /** Every upload of one recorder run, in the layout the settings select. */
  function UploadAll(env: Env, s: Settings, dir: string, inputs: Inputs): (st: Step<seq<ScreenshotRecord>>)
    requires AllTilesAgree(inputs)
    ensures PutsAnnounced(env, st.sent)
    ensures forall i :: 0 <= i < |st.sent| ==> !IsRunPost(st.sent[i])
    ensures st.result.Ok? && !s.iosSnapshotTestCase ==>
              NamedAfter(st.result.value, inputs.metadata) && AllReady(inputs.provider, inputs.metadata)
    ensures !s.iosSnapshotTestCase && AllReady(inputs.provider, inputs.metadata) ==>
              st == AndroidWalk(env, s, [], inputs.provider, inputs.metadata)
    ensures !s.iosSnapshotTestCase && !AllReady(inputs.provider, inputs.metadata) ==>
              var k := FirstUnready(inputs.provider, inputs.metadata);
              var w := AndroidWalk(env, s, [], inputs.provider, inputs.metadata[..k]);
              st == if w.result.Err? then w
                    else
                      var u := UploadScreenshot(env, s, w.sent, inputs.provider, inputs.metadata[k]);
                      Step(u.sent, Err(u.result.error))
    ensures st.result.Ok? && s.iosSnapshotTestCase ==> inputs.tree.Dir?
    ensures s.iosSnapshotTestCase && inputs.tree.File? ==> st == Step([], Err(NotADirectory(dir)))
    ensures s.iosSnapshotTestCase && inputs.tree.Dir? ==>
              st == ReferenceWalk(env, s, [], Entries(dir, "", inputs.tree.children))
  {
    assert PutsAnnounced(env, []);
    AndroidIsReference(env, s, [], inputs.provider, inputs.metadata);
    if s.iosSnapshotTestCase then UploadIosImages(env, s, [], dir, "", inputs.tree)
    else if AllReady(inputs.provider, inputs.metadata) then
      UploadAndroidImages(env, s, [], inputs.provider, inputs.metadata)
    else
      var k := FirstUnready(inputs.provider, inputs.metadata);
      AndroidStopsAtFirstUnready(env, s, [], inputs.provider, inputs.metadata, k);
      UploadAndroidImages(env, s, [], inputs.provider, inputs.metadata)
  }

  /** `doRecorder`: validate, upload everything, then submit the run. */
  function DoRecorder(env: Env, s: Settings, channel: string, dir: string, inputs: Inputs): (st: Step<()>)
    requires AllTilesAgree(inputs)
    ensures channel == "" ==> st == Step([], Err(EmptyChannel))
    ensures channel != "" && dir == "" ==> st == Step([], Err(NoDirectory))
    ensures channel != "" && dir != "" ==>
              var up := UploadAll(env, s, dir, inputs);
              st == if up.result.Err? then Step(up.sent, Err(up.result.error))
                    else MakeRun(env, s, up.sent, channel, up.result.value)
    ensures PutsAnnounced(env, st.sent)
  {
    if channel == "" then Step([], Err(EmptyChannel))
    else if dir == "" then Step([], Err(NoDirectory))
    else
      var up := UploadAll(env, s, dir, inputs);
      match up.result
      case Err(e) => Step(up.sent, Err(e))
      case Ok(records) => MakeRun(env, s, up.sent, channel, records)
  }

  /** A run is submitted at most once, as the very last request, and only when
      the arguments are valid, every upload succeeded and the credentials
      resolve; everything before it is the uploads, and it lists the records
      they produced. */
  lemma RunSubmittedLast(env: Env, s: Settings, channel: string, dir: string, inputs: Inputs)
    requires AllTilesAgree(inputs)
    ensures var st := DoRecorder(env, s, channel, dir, inputs);
            forall i :: 0 <= i < |st.sent| - 1 ==> !IsRunPost(st.sent[i])
    ensures var st := DoRecorder(env, s, channel, dir, inputs);
            var up := UploadAll(env, s, dir, inputs);
            (|st.sent| > 0 && IsRunPost(st.sent[|st.sent| - 1])) <==>
              (channel != "" && dir != "" && up.result.Ok? && HasCredentials(env, s))
    ensures var st := DoRecorder(env, s, channel, dir, inputs);
            var up := UploadAll(env, s, dir, inputs);
            (|st.sent| > 0 && IsRunPost(st.sent[|st.sent| - 1])) ==>
              st.sent[..|st.sent| - 1] == up.sent &&
              st.sent[|st.sent| - 1].fields ==
                RunFields(s, channel, env.recordsJson(up.result.value),
                          ApiKey(env, s).value, ApiSecret(env, s).value)
  {
  }

  /** When a run is submitted, every screenshot was uploaded before it, in
      order, as the reference walk of the selected layout describes, and the run
      lists exactly the records that walk produced. */
  lemma RunFollowsUploads(env: Env, s: Settings, channel: string, dir: string, inputs: Inputs)
    requires AllTilesAgree(inputs)
    ensures var st := DoRecorder(env, s, channel, dir, inputs);
            |st.sent| > 0 && IsRunPost(st.sent[|st.sent| - 1]) && s.iosSnapshotTestCase ==>
              inputs.tree.Dir? &&
              var w := ReferenceWalk(env, s, [], Entries(dir, "", inputs.tree.children));
              w.result.Ok? && st.sent[..|st.sent| - 1] == w.sent &&
              st.sent[|st.sent| - 1].fields ==
                RunFields(s, channel, env.recordsJson(w.result.value), ApiKey(env, s).value, ApiSecret(env, s).value)
    ensures var st := DoRecorder(env, s, channel, dir, inputs);
            |st.sent| > 0 && IsRunPost(st.sent[|st.sent| - 1]) && !s.iosSnapshotTestCase ==>
              AllReady(inputs.provider, inputs.metadata) &&
              var w := AndroidWalk(env, s, [], inputs.provider, inputs.metadata);
              w.result.Ok? && st.sent[..|st.sent| - 1] == w.sent &&
              st.sent[|st.sent| - 1].fields ==
                RunFields(s, channel, env.recordsJson(w.result.value), ApiKey(env, s).value, ApiSecret(env, s).value)
  {
    if channel != "" && dir != "" {
      var up := UploadAll(env, s, dir, inputs);
      if up.result.Ok? && !s.iosSnapshotTestCase {
        assert AllReady(inputs.provider, inputs.metadata);
      }
    }
  }

  /** Every screenshot is uploaded before the run: when a run is submitted,
      each Android screenshot's stitched PNG was registered as `name.png`, and
      each iOS file under its path with its bytes, among the requests before
      it. */
  lemma EveryUploadBeforeRun(env: Env, s: Settings, channel: string, dir: string, inputs: Inputs)
    requires AllTilesAgree(inputs)
    ensures var st := DoRecorder(env, s, channel, dir, inputs);
            |st.sent| > 0 && IsRunPost(st.sent[|st.sent| - 1]) && !s.iosSnapshotTestCase ==>
              AllReady(inputs.provider, inputs.metadata) && HasCredentials(env, s) &&
              forall i :: 0 <= i < |inputs.metadata| ==>
                var shot := inputs.metadata[i];
                Registration(env, s, shot.name.value + ".png",
                             env.encodePng(Stitched(inputs.provider, shot).value)) in st.sent[..|st.sent| - 1]
    ensures var st := DoRecorder(env, s, channel, dir, inputs);
            |st.sent| > 0 && IsRunPost(st.sent[|st.sent| - 1]) && s.iosSnapshotTestCase ==>
              inputs.tree.Dir? && HasCredentials(env, s) &&
              var es := Entries(dir, "", inputs.tree.children);
              forall i :: 0 <= i < |es| ==> Registration(env, s, es[i].file, es[i].data) in st.sent[..|st.sent| - 1]
  {
    RunFollowsUploads(env, s, channel, dir, inputs);
    RunSubmittedLast(env, s, channel, dir, inputs);
    var st := DoRecorder(env, s, channel, dir, inputs);
    if |st.sent| > 0 && IsRunPost(st.sent[|st.sent| - 1]) {
      var before := st.sent[..|st.sent| - 1];
      assert before[0..] == before;
      if s.iosSnapshotTestCase {
        var es := Entries(dir, "", inputs.tree.children);
        UploadEachSendsEach(env, s, [], UploadsOf(es));
      } else {
        var ups := AndroidUploads(env, inputs.provider, inputs.metadata);
        UploadEachSendsEach(env, s, [], ups);
      }
    }
  }

  /** A recorder run succeeds exactly when the arguments are valid, every
      upload succeeded, the credentials resolve and the server accepted the
      run with status 200. */
  lemma DoRecorderSucceeds(env: Env, s: Settings, channel: string, dir: string, inputs: Inputs)
    requires AllTilesAgree(inputs)
    ensures var st := DoRecorder(env, s, channel, dir, inputs);
            var up := UploadAll(env, s, dir, inputs);
            st.result.Ok? <==>
              (channel != "" && dir != "" && up.result.Ok? && HasCredentials(env, s) &&
               |st.sent| > 0 && env.status(st.sent[..|st.sent| - 1], st.sent[|st.sent| - 1]) == 200)
  {
  }
}
