/** The recorder's conversation with the Screenshotbot server: the requests it
    sends, the foreign functions it relies on (MD5, the PNG encoder, the JSON
    writer, the configuration file and the server itself), and `uploadImage`,
    the content-addressed upload of one image. */
module Api {
  import opened Common
  import opened Stitch

  /** One form field of a POST; a `null` value is passed through as `None`. */
  datatype Field = Field(key: string, value: Option<string>)

  /** A request the recorder sends: a form POST or a PUT of raw bytes. */
  datatype Request =
    | Post(url: string, fields: seq<Field>)
    | Put(url: string, body: seq<byte>)

  /** The server's reply to an image registration: the image id it assigned
      and, for bytes it has never seen, where to upload them. */
  datatype ImageResponse = ImageResponse(id: string, uploadUrl: Option<string>)

  /** The contents of `~/.screenshotbot`. */
  datatype Credential = Credential(apiKey: string, apiSecretKey: string)

  /** One screenshot as the server records it in a run. */
  datatype ScreenshotRecord = ScreenshotRecord(name: string, imageId: string)

  /** The recorder's settings: the fields of the `Recorder` object that the
      pipeline reads. */
  datatype Settings = Settings(
    branch: Option<string>,
    clean: Option<bool>,
    commit: Option<string>,
    production: bool,
    iosSnapshotTestCase: bool,
    githubRepo: Option<string>,
    apiKey: Option<string>,
    apiSecret: Option<string>)

  /** Everything outside the recorder that it calls into, as functions of their
      inputs. `config` is what `readConfig()` yields (`None` when it throws);
      the server's answers may depend on every request sent before. */
  datatype Env = Env(
    md5: seq<byte> -> string,
    encodePng: Image -> seq<byte>,
    recordsJson: seq<ScreenshotRecord> -> string,
    config: Option<Credential>,
    register: (seq<Request>, Request) -> Option<ImageResponse>,
    status: (seq<Request>, Request) -> int)

  /** The requests sent so far, and the outcome of the operation. */
  datatype Step<+T> = Step(sent: seq<Request>, result: Result<T>)

  const Host: string := "https://api.screenshotbot.io"
  const ScreenshotPath: string := "/api/screenshot"
  const RunPath: string := "/api/run"

  /** `buildUrl`: every endpoint lives under the one Screenshotbot host. */
  function BuildUrl(path: string): (url: string)
    ensures |url| == |Host| + |path|
    ensures url[..|Host|] == Host && url[|Host|..] == path
  {
    Host + path
  }

  /** Different endpoints have different URLs. */
  lemma BuildUrlInjective(a: string, b: string)
    ensures BuildUrl(a) == BuildUrl(b) <==> a == b
  {
  }

  /** `getApiKey`: the configured key, else the one in the configuration file. */
  function ApiKey(env: Env, s: Settings): (r: Result<string>)
    ensures r.Ok? <==> s.apiKey.Some? || env.config.Some?
    ensures s.apiKey.Some? ==> r == Ok(s.apiKey.value)
    ensures s.apiKey.None? && env.config.Some? ==> r == Ok(env.config.value.apiKey)
    ensures r.Err? ==> r.error == MissingCredentials
  {
    match s.apiKey
    case Some(k) => Ok(k)
    case None =>
      match env.config
      case Some(c) => Ok(c.apiKey)
      case None => Err(MissingCredentials)
  }

  /** `getApiSecret`: the configured secret, else the one in the configuration
      file. */
  function ApiSecret(env: Env, s: Settings): (r: Result<string>)
    ensures r.Ok? <==> s.apiSecret.Some? || env.config.Some?
    ensures s.apiSecret.Some? ==> r == Ok(s.apiSecret.value)
    ensures s.apiSecret.None? && env.config.Some? ==> r == Ok(env.config.value.apiSecretKey)
    ensures r.Err? ==> r.error == MissingCredentials
  {
    match s.apiSecret
    case Some(k) => Ok(k)
    case None =>
      match env.config
      case Some(c) => Ok(c.apiSecretKey)
      case None => Err(MissingCredentials)
  }

  /** Both credentials can be resolved. */
  predicate HasCredentials(env: Env, s: Settings)
  {
    ApiKey(env, s).Ok? && ApiSecret(env, s).Ok?
  }

  /** The registration request of `uploadImage`: the file name, the digest of
      the bytes, and the credentials. */
  function Registration(env: Env, s: Settings, fileName: string, data: seq<byte>): (req: Request)
    requires HasCredentials(env, s)
    ensures req.Post? && req.url == BuildUrl(ScreenshotPath)
    ensures |req.fields| == 4
    ensures req.fields[0] == Field("name", Some(fileName))
    ensures req.fields[1] == Field("hash", Some(env.md5(data)))
    ensures req.fields[2] == Field("api-key", Some(ApiKey(env, s).value))
    ensures req.fields[3] == Field("api-secret-key", Some(ApiSecret(env, s).value))
  {
    Post(BuildUrl(ScreenshotPath),
         [Field("name", Some(fileName)), Field("hash", Some(env.md5(data))),
          Field("api-key", Some(ApiKey(env, s).value)),
          Field("api-secret-key", Some(ApiSecret(env, s).value))])
  }

  /** The server asks for the bytes: it issued a non-null, non-empty upload URL. */
  predicate WantsBytes(reply: ImageResponse)
  {
    reply.uploadUrl.Some? && reply.uploadUrl.value != ""
  }

  /** `uploadImage`: register the digest of `data`; transfer `data` only when
      the server issued an upload URL; fail on a transfer status other than 200;
      otherwise hand back the server's reply. */
  function UploadImage(env: Env, s: Settings, sent: seq<Request>, fileName: string, data: seq<byte>)
    : (st: Step<ImageResponse>)
    ensures sent <= st.sent && |st.sent| <= |sent| + 2
    ensures PutsAnnounced(env, sent) ==> PutsAnnounced(env, st.sent)
    ensures forall i :: |sent| <= i < |st.sent| ==> !IsRunPost(st.sent[i])
    ensures st.result.Ok? ==> |sent| < |st.sent|
  {
    if !HasCredentials(env, s) then Step(sent, Err(MissingCredentials))
    else
      var reg := Registration(env, s, fileName, data);
      var sent1 := sent + [reg];
      AppendRequest(env, sent, reg);
      match env.register(sent, reg)
      case None => Step(sent1, Err(RegistrationFailed(fileName)))
      case Some(reply) =>
        if WantsBytes(reply) then
          var put := Put(reply.uploadUrl.value, data);
          AppendAnnounced(env, sent, reg, put);
          if env.status(sent1, put) != 200 then Step(sent1 + [put], Err(UploadFailed))
          else Step(sent1 + [put], Ok(reply))
        else Step(sent1, Ok(reply))
  }

  /** Appending a request that is not a transfer keeps every transfer announced. */
  lemma AppendRequest(env: Env, log: seq<Request>, req: Request)
    requires !req.Put?
    ensures PutsAnnounced(env, log) ==> PutsAnnounced(env, log + [req])
  {
    var log1 := log + [req];
    if PutsAnnounced(env, log) {
      forall i | 0 <= i < |log1| && log1[i].Put?
        ensures 0 < i && Announces(env, log1[..i - 1], log1[i - 1], log1[i])
      {
        assert i < |log| && log1[..i - 1] == log[..i - 1];
      }
    }
  }

  /** Appending a registration and the transfer it announces keeps every
      transfer announced. */
  lemma AppendAnnounced(env: Env, log: seq<Request>, reg: Request, put: Request)
    requires Announces(env, log, reg, put)
    ensures PutsAnnounced(env, log) ==> PutsAnnounced(env, log + [reg] + [put])
  {
    var log2 := log + [reg] + [put];
    if PutsAnnounced(env, log) {
      forall i | 0 <= i < |log2| && log2[i].Put?
        ensures 0 < i && Announces(env, log2[..i - 1], log2[i - 1], log2[i])
      {
        if i < |log| {
          assert log2[..i - 1] == log[..i - 1];
        } else {
          assert i == |log| + 1 && log2[..i - 1] == log;
        }
      }
    }
  }

  /** The run submission request. */
  predicate IsRunPost(req: Request)
  {
    req.Post? && req.url == BuildUrl(RunPath)
  }

  /** `put` transfers bytes the server asked for in its reply to `reg`, which
      registered the digest of exactly those bytes. */
  predicate Announces(env: Env, before: seq<Request>, reg: Request, put: Request)
  {
    reg.Post? && put.Put? &&
    reg.url == BuildUrl(ScreenshotPath) &&
    |reg.fields| == 4 && reg.fields[1] == Field("hash", Some(env.md5(put.body))) &&
    env.register(before, reg).Some? &&
    WantsBytes(env.register(before, reg).value) &&
    env.register(before, reg).value.uploadUrl.value == put.url
  }

  /** Every transfer in the log comes straight after the registration that
      announced its digest and obtained its upload URL. */
  predicate PutsAnnounced(env: Env, log: seq<Request>)
  {
    forall i :: 0 <= i < |log| && log[i].Put? ==> 0 < i && Announces(env, log[..i - 1], log[i - 1], log[i])
  }

  /** The requests an upload added to the log. */
  function NewRequests(sent: seq<Request>, st: Step<ImageResponse>): seq<Request>
    requires sent <= st.sent
  {
    st.sent[|sent|..]
  }

  /** Deduplication: nothing is sent without credentials; otherwise the
      registration goes first, and the bytes follow if and only if the server
      issued a non-empty upload URL. Both carry the same bytes: the registered
      hash is the digest of what is transferred. */
  lemma UploadImageRequests(env: Env, s: Settings, sent: seq<Request>, fileName: string, data: seq<byte>)
    ensures !HasCredentials(env, s) ==> NewRequests(sent, UploadImage(env, s, sent, fileName, data)) == []
    ensures HasCredentials(env, s) ==>
              var st := UploadImage(env, s, sent, fileName, data);
              var reg := Registration(env, s, fileName, data);
              var reply := env.register(sent, reg);
              if reply.Some? && WantsBytes(reply.value)
              then NewRequests(sent, st) == [reg, Put(reply.value.uploadUrl.value, data)]
              else NewRequests(sent, st) == [reg]
  {
  }

  /** With credentials, the first request of an image upload is its
      registration. */
  lemma UploadImageRegistersFirst(env: Env, s: Settings, sent: seq<Request>, fileName: string, data: seq<byte>)
    requires HasCredentials(env, s)
    ensures var up := UploadImage(env, s, sent, fileName, data);
            |sent| < |up.sent| && up.sent[|sent|] == Registration(env, s, fileName, data)
  {
    UploadImageRequests(env, s, sent, fileName, data);
    var up := UploadImage(env, s, sent, fileName, data);
    assert up.sent[|sent|] == NewRequests(sent, up)[0];
  }

  /** The outcome of `uploadImage`: the server's reply, unchanged, whether or
      not bytes were transferred; a failure when the credentials, the
      registration or the transfer fail. */
  lemma UploadImageResult(env: Env, s: Settings, sent: seq<Request>, fileName: string, data: seq<byte>)
    ensures var st := UploadImage(env, s, sent, fileName, data);
            st.result.Ok? <==>
              HasCredentials(env, s) &&
              var reg := Registration(env, s, fileName, data);
              env.register(sent, reg).Some? &&
              (WantsBytes(env.register(sent, reg).value) ==>
                 env.status(sent + [reg], Put(env.register(sent, reg).value.uploadUrl.value, data)) == 200)
    ensures var st := UploadImage(env, s, sent, fileName, data);
            st.result.Ok? ==> Some(st.result.value) == env.register(sent, Registration(env, s, fileName, data))
    ensures var st := UploadImage(env, s, sent, fileName, data);
            st.result.Err? ==>
              st.result.error in {MissingCredentials, RegistrationFailed(fileName), UploadFailed}
    ensures !HasCredentials(env, s) ==> UploadImage(env, s, sent, fileName, data).result == Err(MissingCredentials)
    ensures HasCredentials(env, s) && env.register(sent, Registration(env, s, fileName, data)).None? ==>
              UploadImage(env, s, sent, fileName, data).result == Err(RegistrationFailed(fileName))
    ensures HasCredentials(env, s) ==>
              var reg := Registration(env, s, fileName, data);
              var reply := env.register(sent, reg);
              reply.Some? && WantsBytes(reply.value) &&
              env.status(sent + [reg], Put(reply.value.uploadUrl.value, data)) != 200 ==>
                UploadImage(env, s, sent, fileName, data).result == Err(UploadFailed)
  {
  }

  // ---------------------------------------------------------------------------
  // Uploading a list of files, and recording what the server answered
  // ---------------------------------------------------------------------------

  /** One file to upload: the name it is registered under and its bytes. */
  datatype Upload = Upload(file: string, data: seq<byte>)

  /** `uploadImage` on each file in turn, the first failure aborting the rest;
      the server's replies, in order. Every file that succeeded was registered,
      so each adds one or two requests to the log. */
  function UploadEach(env: Env, s: Settings, sent: seq<Request>, items: seq<Upload>)
    : (st: Step<seq<ImageResponse>>)
    ensures sent <= st.sent
    ensures PutsAnnounced(env, sent) ==> PutsAnnounced(env, st.sent)
    ensures forall i :: |sent| <= i < |st.sent| ==> !IsRunPost(st.sent[i])
    ensures st.result.Ok? ==> |st.result.value| == |items| &&
                              |sent| + |items| <= |st.sent| <= |sent| + 2 * |items|
    decreases items
  {
    if items == [] then Step(sent, Ok([]))
    else
      var first := UploadImage(env, s, sent, items[0].file, items[0].data);
      match first.result
      case Err(e) => Step(first.sent, Err(e))
      case Ok(reply) =>
        var rest := UploadEach(env, s, first.sent, items[1..]);
        match rest.result
        case Err(e) => Step(rest.sent, Err(e))
        case Ok(replies) => Step(rest.sent, Ok([reply] + replies))
  }

  /** What one `uploadImage` sends: the registration of the file, whenever
      the credentials resolve (and they do when it succeeds), and no transfer
      of any bytes but the file's. */
  lemma UploadImageSends(env: Env, s: Settings, sent: seq<Request>, fileName: string, data: seq<byte>)
    ensures var up := UploadImage(env, s, sent, fileName, data);
            (up.result.Ok? ==> HasCredentials(env, s)) &&
            (HasCredentials(env, s) ==> Registration(env, s, fileName, data) in NewRequests(sent, up)) &&
            (forall r :: r in NewRequests(sent, up) && r.Put? ==> r.body == data)
  {
    UploadImageRequests(env, s, sent, fileName, data);
  }

  /** `UploadEach` on a non-empty list, as the log and outcome of its first
      upload and of the rest. */
  lemma UploadEachStep(env: Env, s: Settings, sent: seq<Request>, items: seq<Upload>)
    requires items != []
    ensures var first := UploadImage(env, s, sent, items[0].file, items[0].data);
            var st := UploadEach(env, s, sent, items);
            var rest := UploadEach(env, s, first.sent, items[1..]);
            sent <= first.sent <= rest.sent &&
            (st.result.Ok? ==> first.result.Ok? && rest.result.Ok?) &&
            st.sent == (if first.result.Ok? then rest.sent else first.sent)
  {
  }

  /** The requests added by two consecutive steps are those of the first step
      followed by those of the second. */
  lemma NewSuffix(sent: seq<Request>, mid: seq<Request>, last: seq<Request>)
    requires sent <= mid <= last
    ensures last[|sent|..] == mid[|sent|..] + last[|mid|..]
  {
  }

  /** A successful list upload registered every file, each under
      its own name with the digest of its own bytes. */
  lemma {:induction false} UploadEachSendsEach(env: Env, s: Settings, sent: seq<Request>, items: seq<Upload>)
    ensures var st := UploadEach(env, s, sent, items);
            st.result.Ok? && items != [] ==>
              HasCredentials(env, s) &&
              forall i :: 0 <= i < |items| ==> Registration(env, s, items[i].file, items[i].data) in st.sent[|sent|..]
    decreases items
  {
    var st := UploadEach(env, s, sent, items);
    if items != [] && st.result.Ok? {
      var first := UploadImage(env, s, sent, items[0].file, items[0].data);
      var rest := UploadEach(env, s, first.sent, items[1..]);
      UploadEachStep(env, s, sent, items);
      UploadImageSends(env, s, sent, items[0].file, items[0].data);
      UploadEachSendsEach(env, s, first.sent, items[1..]);
      NewSuffix(sent, first.sent, rest.sent);
      var mine, head, tail := st.sent[|sent|..], first.sent[|sent|..], rest.sent[|first.sent|..];
      assert mine == head + tail;
      forall i | 0 <= i < |items|
        ensures Registration(env, s, items[i].file, items[i].data) in mine
      {
        if i == 0 {
          assert Registration(env, s, items[0].file, items[0].data) in head;
        } else {
          assert items[i] == items[1..][i - 1];
          assert Registration(env, s, items[i].file, items[i].data) in tail;
        }
      }
    }
  }

  /** Every transfer a list upload makes carries the bytes of one of its
      files. */
  lemma {:induction false} UploadEachSendsOwnBytes(env: Env, s: Settings, sent: seq<Request>, items: seq<Upload>)
    ensures var st := UploadEach(env, s, sent, items);
            forall r :: r in st.sent[|sent|..] && r.Put? ==> exists i :: 0 <= i < |items| && r.body == items[i].data
    decreases items
  {
    var st := UploadEach(env, s, sent, items);
    if items != [] {
      var first := UploadImage(env, s, sent, items[0].file, items[0].data);
      var rest := UploadEach(env, s, first.sent, items[1..]);
      UploadEachStep(env, s, sent, items);
      UploadImageSends(env, s, sent, items[0].file, items[0].data);
      UploadEachSendsOwnBytes(env, s, first.sent, items[1..]);
      NewSuffix(sent, first.sent, rest.sent);
      forall r | r in st.sent[|sent|..] && r.Put?
        ensures exists i :: 0 <= i < |items| && r.body == items[i].data
      {
        if r in NewRequests(sent, first) {
          assert r.body == items[0].data;
        } else {
          var i :| 0 <= i < |items[1..]| && r.body == items[1..][i].data;
          assert r.body == items[i + 1].data;
        }
      }
    }
  }

  /** Uploading `a + b` uploads `a`, and then, unless that failed, `b` from
      where `a` left the log; the replies are those of `a` followed by those
      of `b`. */
  lemma {:induction false} UploadEachConcat(env: Env, s: Settings, sent: seq<Request>, a: seq<Upload>, b: seq<Upload>)
    ensures var u := UploadEach(env, s, sent, a);
            UploadEach(env, s, sent, a + b) ==
              if u.result.Err? then u
              else
                var v := UploadEach(env, s, u.sent, b);
                if v.result.Err? then v else Step(v.sent, Ok(u.result.value + v.result.value))
    decreases a
  {
    if a != [] {
      assert (a + b)[0] == a[0] && (a + b)[1..] == a[1..] + b;
      var first := UploadImage(env, s, sent, a[0].file, a[0].data);
      if first.result.Ok? {
        UploadEachConcat(env, s, first.sent, a[1..], b);
        var u := UploadEach(env, s, first.sent, a[1..]);
        if u.result.Ok? {
          var v := UploadEach(env, s, u.sent, b);
          if v.result.Ok? {
            assert [first.result.value] + (u.result.value + v.result.value) ==
                   ([first.result.value] + u.result.value) + v.result.value;
          }
        }
      }
    } else {
      assert a + b == b;
      var v := UploadEach(env, s, sent, b);
      if v.result.Ok? {
        assert [] + v.result.value == v.result.value;
      }
    }
  }

  /** Each name paired with the image id of the reply at the same position. */
  function Records(names: seq<string>, replies: seq<ImageResponse>): (recs: seq<ScreenshotRecord>)
    requires |names| == |replies|
    ensures |recs| == |names|
    ensures forall i :: 0 <= i < |names| ==> recs[i] == ScreenshotRecord(names[i], replies[i].id)
  {
    seq(|names|, i requires 0 <= i < |names| => ScreenshotRecord(names[i], replies[i].id))
  }

  lemma RecordsConcat(n1: seq<string>, n2: seq<string>, r1: seq<ImageResponse>, r2: seq<ImageResponse>)
    requires |n1| == |r1| && |n2| == |r2|
    ensures Records(n1 + n2, r1 + r2) == Records(n1, r1) + Records(n2, r2)
  {
  }

  /** The outcome of a list of uploads turned into records named `names`: the
      same log and the same failure, or one record per reply. */
  function Recorded(names: seq<string>, st: Step<seq<ImageResponse>>): (out: Step<seq<ScreenshotRecord>>)
    requires st.result.Ok? ==> |st.result.value| == |names|
    ensures out.sent == st.sent && out.result.Ok? == st.result.Ok?
    ensures st.result.Err? ==> out.result.error == st.result.error
    ensures st.result.Ok? ==> out.result.value == Records(names, st.result.value)
  {
    match st.result
    case Err(e) => Step(st.sent, Err(e))
    case Ok(replies) => Step(st.sent, Ok(Records(names, replies)))
  }

  /** Uploading and recording `[u] + items` uploads `u` first and then, unless
      that failed, the rest from where `u` left the log; `u`'s record comes
      first, with the id its reply gave. */
  lemma RecordedEachCons(env: Env, s: Settings, sent: seq<Request>, n: string, names: seq<string>,
                         u: Upload, items: seq<Upload>)
    requires |names| == |items|
    ensures var up := UploadImage(env, s, sent, u.file, u.data);
            Recorded([n] + names, UploadEach(env, s, sent, [u] + items)) ==
              if up.result.Err? then Step(up.sent, Err(up.result.error))
              else
                var v := Recorded(names, UploadEach(env, s, up.sent, items));
                if v.result.Err? then v
                else Step(v.sent, Ok([ScreenshotRecord(n, up.result.value.id)] + v.result.value))
  {
    UploadEachCons(env, s, sent, u, items);
    var up := UploadImage(env, s, sent, u.file, u.data);
    if up.result.Ok? {
      var rest := UploadEach(env, s, up.sent, items);
      if rest.result.Ok? {
        RecordsCons(n, names, up.result.value, rest.result.value);
      }
    }
  }

  /** `UploadEach` on a non-empty list, one step unfolded. */
  lemma UploadEachCons(env: Env, s: Settings, sent: seq<Request>, u: Upload, items: seq<Upload>)
    ensures var up := UploadImage(env, s, sent, u.file, u.data);
            UploadEach(env, s, sent, [u] + items) ==
              if up.result.Err? then Step(up.sent, Err(up.result.error))
              else
                var rest := UploadEach(env, s, up.sent, items);
                if rest.result.Err? then rest
                else Step(rest.sent, Ok([up.result.value] + rest.result.value))
  {
  }

  lemma RecordsCons(n: string, names: seq<string>, r: ImageResponse, replies: seq<ImageResponse>)
    requires |names| == |replies|
    ensures Records([n] + names, [r] + replies) == [ScreenshotRecord(n, r.id)] + Records(names, replies)
  {
  }
}
