/** `uploadAndroidImages`: for each screenshot of the metadata, fetch its tiles
    from the image provider, stitch them into one image, encode it and upload
    it, yielding one record per screenshot. */
module Android {
  import opened Common
  import opened Stitch
  import opened Tiles
  import opened Api

  /** The fields of a `<screenshot>` element that the upload reads. */
  datatype Screenshot = Screenshot(name: Option<string>, tileWidth: Option<int>, tileHeight: Option<int>)

  /** `screenshot.name` in a string template or a concatenation: a null name
      prints as `null`. */
  function NameText(name: Option<string>): (text: string)
    ensures name.Some? ==> text == name.value
    ensures name.None? ==> text == "null"
  {
    match name
    case Some(n) => n
    case None => "null"
  }

  /** The tile counts, failing as the source does: `tile_height!!` is read
      first and a negative height is a negative array size; with a positive
      height `tile_width!!` is read for row 0 and a negative width is a negative
      array size; a zero height makes `imgs[0]` fail, a zero width `it[0]`. */
  function TileCounts(shot: Screenshot): (r: Result<(nat, nat)>)
    ensures r.Ok? <==> shot.tileHeight.Some? && shot.tileHeight.value > 0 &&
                       shot.tileWidth.Some? && shot.tileWidth.value > 0
    ensures r.Ok? ==> r.value == (shot.tileWidth.value, shot.tileHeight.value)
    ensures r.Err? && shot.tileHeight.None? ==> r.error == MissingTileCount
    ensures r.Err? && shot.tileHeight.Some? && shot.tileHeight.value <= 0 ==> r.error == BadTileCount
    ensures r.Err? && shot.tileHeight.Some? && shot.tileHeight.value > 0 ==>
              r.error == (if shot.tileWidth.None? then MissingTileCount else BadTileCount)
  {
    match shot.tileHeight
    case None => Err(MissingTileCount)
    case Some(th) =>
      if th <= 0 then Err(BadTileCount)
      else match shot.tileWidth
        case None => Err(MissingTileCount)
        case Some(tw) => if tw <= 0 then Err(BadTileCount) else Ok((tw, th))
  }

  /** What the stitching needs of the provider and is never checked: when all
      tiles of the screenshot are there, they form a rectangular grid. */
  predicate TilesAgree(p: Provider, shot: Screenshot)
  {
    TileCounts(shot).Ok? ==>
      var (tw, th) := TileCounts(shot).value;
      FetchTiles(p, NameText(shot.name), tw, th).Ok? ==>
        Rectangular(FetchTiles(p, NameText(shot.name), tw, th).value)
  }

  /** The upload of one screenshot: its tiles fetched, stitched, encoded as
      PNG and uploaded as `name.png`; the record is made only afterwards, so a
      null name fails after the upload. */
  function UploadScreenshot(env: Env, s: Settings, sent: seq<Request>, p: Provider, shot: Screenshot)
    : (st: Step<ScreenshotRecord>)
    requires TilesAgree(p, shot)
    ensures sent <= st.sent
    ensures PutsAnnounced(env, sent) ==> PutsAnnounced(env, st.sent)
    ensures forall i :: |sent| <= i < |st.sent| ==> !IsRunPost(st.sent[i])
    ensures st.result.Ok? ==> shot.name == Some(st.result.value.name)
    ensures st.result.Ok? ==> Ready(p, shot)
  {
    match TileCounts(shot)
    case Err(e) => Step(sent, Err(e))
    case Ok((tw, th)) =>
      match FetchTiles(p, NameText(shot.name), tw, th)
      case Err(e) => Step(sent, Err(e))
      case Ok(grid) =>
        var up := UploadImage(env, s, sent, NameText(shot.name) + ".png", env.encodePng(Composite(grid)));
        match up.result
        case Err(e) => Step(up.sent, Err(e))
        case Ok(reply) =>
          match shot.name
          case None => Step(up.sent, Err(MissingName))
          case Some(n) => Step(up.sent, Ok(ScreenshotRecord(n, reply.id)))
  }

  /** A screenshot with invalid tile counts fails with the count's own error
      before anything is sent. */
  lemma UploadScreenshotCountError(env: Env, s: Settings, sent: seq<Request>, p: Provider, shot: Screenshot)
    requires TilesAgree(p, shot) && TileCounts(shot).Err?
    ensures UploadScreenshot(env, s, sent, p, shot) == Step(sent, Err(TileCounts(shot).error))
  {
  }

  /** A screenshot whose tiles are not all there fails with the fetch's error,
      which names the first missing tile, before anything is sent. */
  lemma UploadScreenshotTileError(env: Env, s: Settings, sent: seq<Request>, p: Provider, shot: Screenshot,
                                  tw: nat, th: nat)
    requires TilesAgree(p, shot) && TileCounts(shot) == Ok((tw, th))
    requires FetchTiles(p, NameText(shot.name), tw, th).Err?
    ensures UploadScreenshot(env, s, sent, p, shot) == Step(sent, Err(FetchTiles(p, NameText(shot.name), tw, th).error))
  {
  }

  /** The screenshot's tile counts are valid and every one of its tiles is
      there. */
  predicate Fetched(p: Provider, shot: Screenshot)
  {
    TileCounts(shot).Ok? &&
    FetchTiles(p, NameText(shot.name), TileCounts(shot).value.0, TileCounts(shot).value.1).Ok?
  }

  /** The composite this screenshot uploads, when its counts and tiles are
      there. */
  function Stitched(p: Provider, shot: Screenshot): (img: Option<Image>)
    requires TilesAgree(p, shot)
    ensures img.Some? <==> Fetched(p, shot)
  {
    match TileCounts(shot)
    case Err(_) => None
    case Ok((tw, th)) =>
      match FetchTiles(p, NameText(shot.name), tw, th)
      case Err(_) => None
      case Ok(grid) => Some(Composite(grid))
  }

  /** A screenshot that can be recorded: its tiles are all there and it has a
      name. */
  predicate Ready(p: Provider, shot: Screenshot)
  {
    TilesAgree(p, shot) && Fetched(p, shot) && shot.name.Some?
  }

  /** `TilesAgree` and `Ready` as values, for `All`. */
  function AgreesIn(p: Provider): Screenshot -> bool
  {
    shot => TilesAgree(p, shot)
  }

  function ReadyIn(p: Provider): Screenshot -> bool
  {
    shot => Ready(p, shot)
  }

  predicate AllReady(p: Provider, shots: seq<Screenshot>)
  {
    All(ReadyIn(p), shots)
  }

  lemma AllReadyCons(p: Provider, shots: seq<Screenshot>)
    requires shots != []
    ensures AllReady(p, shots) <==> Ready(p, shots[0]) && AllReady(p, shots[1..])
  {
    AllCons(ReadyIn(p), shots);
  }

  /** What a ready screenshot uploads: its stitched image, PNG-encoded, as
      `name.png`. */
  function ShotUpload(env: Env, p: Provider, shot: Screenshot): Upload
    requires Ready(p, shot)
  {
    Upload(NameText(shot.name) + ".png", env.encodePng(Stitched(p, shot).value))
  }

  function UploadOf(env: Env, p: Provider): Screenshot --> Upload
  {
    shot requires Ready(p, shot) => ShotUpload(env, p, shot)
  }

  /** What the screenshots upload, one upload per screenshot, in order. */
  function AndroidUploads(env: Env, p: Provider, shots: seq<Screenshot>): (us: seq<Upload>)
    requires AllReady(p, shots)
    ensures |us| == |shots|
    ensures forall i :: 0 <= i < |shots| ==> us[i] == ShotUpload(env, p, shots[i])
  {
    Map(UploadOf(env, p), shots)
  }

  /** The name a screenshot is recorded under. */
  function ShotName(shot: Screenshot): string
  {
    NameText(shot.name)
  }

  /** The names the screenshots are recorded under, in order. */
  function ShotNames(shots: seq<Screenshot>): (names: seq<string>)
    ensures |names| == |shots| && forall i :: 0 <= i < |shots| ==> names[i] == NameText(shots[i].name)
  {
    Map(ShotName, shots)
  }

  /** The reference upload of the screenshots: each one's image uploaded in
      order, the first failure aborting the rest, and each recorded under its
      name with the image id the server gave it. */
  function AndroidWalk(env: Env, s: Settings, sent: seq<Request>, p: Provider, shots: seq<Screenshot>)
    : Step<seq<ScreenshotRecord>>
    requires AllReady(p, shots)
  {
    Recorded(ShotNames(shots), UploadEach(env, s, sent, AndroidUploads(env, p, shots)))
  }

  /** Walking no screenshots sends nothing and records nothing. */
  lemma AndroidWalkEmpty(env: Env, s: Settings, sent: seq<Request>, p: Provider)
    ensures AndroidWalk(env, s, sent, p, []) == Step(sent, Ok([]))
  {
    assert ShotNames([]) == [] && AndroidUploads(env, p, []) == [];
    assert Records([], []) == [];
  }

  /** Walking ready screenshots uploads the first one and then, unless that
      failed, walks the rest from where it left the log. */
  lemma AndroidWalkUnfold(env: Env, s: Settings, sent: seq<Request>, p: Provider, shots: seq<Screenshot>)
    requires shots != [] && AllReady(p, shots)
    ensures AllReady(p, shots[1..])
    ensures var u := UploadScreenshot(env, s, sent, p, shots[0]);
            AndroidWalk(env, s, sent, p, shots) ==
              if u.result.Err? then Step(u.sent, Err(u.result.error))
              else
                var v := AndroidWalk(env, s, u.sent, p, shots[1..]);
                if v.result.Err? then v else Step(v.sent, Ok([u.result.value] + v.result.value))
  {
    AllReadyCons(p, shots);
    var n, head := ShotName(shots[0]), ShotUpload(env, p, shots[0]);
    var names, ups := ShotNames(shots[1..]), AndroidUploads(env, p, shots[1..]);
    MapCons(ShotName, shots);
    MapCons(UploadOf(env, p), shots);
    UploadScreenshotStitched(env, s, sent, p, shots[0]);
    RecordedEachCons(env, s, sent, n, names, head, ups);
  }

  /** Nothing is sent for a screenshot whose counts are invalid or whose tiles
      are not all there; otherwise its stitched image is registered as
      `name.png`, with the hash of its PNG encoding, before anything else. */
  lemma UploadScreenshotSends(env: Env, s: Settings, sent: seq<Request>, p: Provider, shot: Screenshot)
    requires TilesAgree(p, shot)
    ensures Stitched(p, shot).None? ==> UploadScreenshot(env, s, sent, p, shot).sent == sent
    ensures Stitched(p, shot).Some? && HasCredentials(env, s) ==>
              var st := UploadScreenshot(env, s, sent, p, shot);
              var data := env.encodePng(Stitched(p, shot).value);
              |sent| < |st.sent| &&
              st.sent[|sent|] == Registration(env, s, NameText(shot.name) + ".png", data)
  {
    if Stitched(p, shot).Some? && HasCredentials(env, s) {
      var (tw, th) := TileCounts(shot).value;
      var grid := FetchTiles(p, NameText(shot.name), tw, th).value;
      var data := env.encodePng(Composite(grid));
      var up := UploadImage(env, s, sent, NameText(shot.name) + ".png", data);
      UploadImageRequests(env, s, sent, NameText(shot.name) + ".png", data);
      assert up.sent[|sent|] == NewRequests(sent, up)[0];
      assert UploadScreenshot(env, s, sent, p, shot).sent == up.sent;
    }
  }

  /** The file name a null name uploads under. */
  lemma NullFileName()
    ensures NameText(None) + ".png" == "null.png"
  {
  }

  /** A screenshot without a name never yields a record; with its tiles and
      credentials in place, its image has been registered, as `null.png`,
      before the failure. */
  lemma NullNameUploadsFirst(env: Env, s: Settings, sent: seq<Request>, p: Provider, shot: Screenshot)
    requires TilesAgree(p, shot) && shot.name.None?
    ensures UploadScreenshot(env, s, sent, p, shot).result.Err?
    ensures Stitched(p, shot).Some? && HasCredentials(env, s) ==>
              var st := UploadScreenshot(env, s, sent, p, shot);
              |sent| < |st.sent| &&
              st.sent[|sent|] == Registration(env, s, "null.png", env.encodePng(Stitched(p, shot).value))
  {
    if Stitched(p, shot).None? {
      if TileCounts(shot).Err? {
        UploadScreenshotCountError(env, s, sent, p, shot);
      } else {
        var (tw, th) := TileCounts(shot).value;
        UploadScreenshotTileError(env, s, sent, p, shot, tw, th);
      }
    } else {
      UploadScreenshotStitched(env, s, sent, p, shot);
      if HasCredentials(env, s) {
        NullFileName();
        UploadImageRegistersFirst(env, s, sent, "null.png", env.encodePng(Stitched(p, shot).value));
      }
    }
  }

  /** A screenshot whose tiles are all there is uploaded as `name.png` (a
      null name as `null.png`); it then fails with that upload's error, or,
      when the upload succeeded, with `MissingName` for a null name, and is
      otherwise recorded under its name with the reply's image id. */
  lemma UploadScreenshotStitched(env: Env, s: Settings, sent: seq<Request>, p: Provider, shot: Screenshot)
    requires TilesAgree(p, shot) && Stitched(p, shot).Some?
    ensures var up := UploadImage(env, s, sent, NameText(shot.name) + ".png", env.encodePng(Stitched(p, shot).value));
            UploadScreenshot(env, s, sent, p, shot) ==
              if up.result.Err? then Step(up.sent, Err(up.result.error))
              else if shot.name.None? then Step(up.sent, Err(MissingName))
              else Step(up.sent, Ok(ScreenshotRecord(shot.name.value, up.result.value.id)))
  {
    var (tw, th) := TileCounts(shot).value;
    assert Stitched(p, shot).value == Composite(FetchTiles(p, NameText(shot.name), tw, th).value);
  }

  /** One record per screenshot, in order, each named after its screenshot. */
  predicate NamedAfter(recs: seq<ScreenshotRecord>, shots: seq<Screenshot>)
  {
    |recs| == |shots| && forall i :: 0 <= i < |shots| ==> shots[i].name == Some(recs[i].name)
  }

  lemma NamedAfterCons(rec: ScreenshotRecord, recs: seq<ScreenshotRecord>, shots: seq<Screenshot>)
    requires shots != [] && shots[0].name == Some(rec.name) && NamedAfter(recs, shots[1..])
    ensures NamedAfter([rec] + recs, shots)
  {
  }

  /** The `map` over the screenshots of the metadata, in order, the first
      failure aborting the rest: one record per screenshot, each named after
      its screenshot. */
  function UploadAndroidImages(env: Env, s: Settings, sent: seq<Request>, p: Provider, shots: seq<Screenshot>)
    : (st: Step<seq<ScreenshotRecord>>)
    requires All(AgreesIn(p), shots)
    ensures sent <= st.sent
    ensures PutsAnnounced(env, sent) ==> PutsAnnounced(env, st.sent)
    ensures forall i :: |sent| <= i < |st.sent| ==> !IsRunPost(st.sent[i])
    ensures st.result.Ok? ==> NamedAfter(st.result.value, shots)
    ensures st.result.Ok? ==> AllReady(p, shots)
    decreases shots
  {
    if shots == [] then Step(sent, Ok([]))
    else
      AllCons(AgreesIn(p), shots);
      var first := UploadScreenshot(env, s, sent, p, shots[0]);
      match first.result
      case Err(e) => Step(first.sent, Err(e))
      case Ok(rec) =>
        var rest := UploadAndroidImages(env, s, first.sent, p, shots[1..]);
        match rest.result
        case Err(e) => Step(rest.sent, Err(e))
        case Ok(recs) =>
          NamedAfterCons(rec, recs, shots);
          AllReadyCons(p, shots);
          Step(rest.sent, Ok([rec] + recs))
  }

  /** The screenshots' upload is the reference upload: every image sent in
      order and recorded with its reply's id, whenever every screenshot can be
      recorded, which is the case whenever the upload succeeds. */
  lemma {:induction false} AndroidIsReference(env: Env, s: Settings, sent: seq<Request>, p: Provider,
                                              shots: seq<Screenshot>)
    requires All(AgreesIn(p), shots)
    ensures AllReady(p, shots) ==>
              UploadAndroidImages(env, s, sent, p, shots) == AndroidWalk(env, s, sent, p, shots)
    decreases shots
  {
    if shots == [] {
      AndroidWalkEmpty(env, s, sent, p);
    } else if AllReady(p, shots) {
      AndroidWalkUnfold(env, s, sent, p, shots);
      var first := UploadScreenshot(env, s, sent, p, shots[0]);
      AndroidIsReference(env, s, first.sent, p, shots[1..]);
    }
  }

  /** `UploadAndroidImages` on a non-empty list, one step unfolded. */
  lemma UploadAndroidImagesUnfold(env: Env, s: Settings, sent: seq<Request>, p: Provider, shots: seq<Screenshot>)
    requires shots != [] && All(AgreesIn(p), shots)
    ensures All(AgreesIn(p), shots[1..])
    ensures var u := UploadScreenshot(env, s, sent, p, shots[0]);
            UploadAndroidImages(env, s, sent, p, shots) ==
              if u.result.Err? then Step(u.sent, Err(u.result.error))
              else
                var v := UploadAndroidImages(env, s, u.sent, p, shots[1..]);
                if v.result.Err? then Step(v.sent, Err(v.result.error))
                else Step(v.sent, Ok([u.result.value] + v.result.value))
  {
    AllCons(AgreesIn(p), shots);
  }

  /** A first screenshot that cannot be recorded fails the whole upload with
      its own error, after whatever its attempt sent. */
  lemma AndroidFailsAtHead(env: Env, s: Settings, sent: seq<Request>, p: Provider, shots: seq<Screenshot>)
    requires All(AgreesIn(p), shots) && shots != [] && !Ready(p, shots[0])
    ensures var u := UploadScreenshot(env, s, sent, p, shots[0]);
            UploadAndroidImages(env, s, sent, p, shots) == Step(u.sent, Err(u.result.error))
  {
    UploadAndroidImagesUnfold(env, s, sent, p, shots);
  }

  /** When the first screenshot fails, uploading any prefix of two or more
      screenshots fails exactly as uploading them all does. */
  lemma PrefixHeadFails(env: Env, s: Settings, sent: seq<Request>, p: Provider, shots: seq<Screenshot>, k: nat)
    requires All(AgreesIn(p), shots) && 0 < k < |shots|
    requires UploadScreenshot(env, s, sent, p, shots[0]).result.Err?
    ensures All(AgreesIn(p), shots[..k])
    ensures UploadAndroidImages(env, s, sent, p, shots) == UploadAndroidImages(env, s, sent, p, shots[..k])
    ensures UploadAndroidImages(env, s, sent, p, shots).result.Err?
  {
    AllPrefix(AgreesIn(p), shots, k);
    PrefixTail(shots, k);
    UploadAndroidImagesUnfold(env, s, sent, p, shots);
    UploadAndroidImagesUnfold(env, s, sent, p, shots[..k]);
  }

  /** When the first screenshot succeeds, uploading a prefix of the
      screenshots ends where, and fails exactly when, uploading the rest of
      that prefix from the first one's log does; all of them are uploaded as
      the first followed by the rest. */
  lemma PrefixHeadSucceeds(env: Env, s: Settings, sent: seq<Request>, p: Provider, shots: seq<Screenshot>, k: nat)
    requires All(AgreesIn(p), shots) && 0 < k < |shots|
    requires UploadScreenshot(env, s, sent, p, shots[0]).result.Ok?
    ensures All(AgreesIn(p), shots[..k]) && All(AgreesIn(p), shots[1..]) && All(AgreesIn(p), shots[1..][..k - 1])
    ensures var first := UploadScreenshot(env, s, sent, p, shots[0]);
            var w := UploadAndroidImages(env, s, sent, p, shots[..k]);
            var w' := UploadAndroidImages(env, s, first.sent, p, shots[1..][..k - 1]);
            w.sent == w'.sent && w.result.Err? == w'.result.Err? &&
            (w.result.Err? ==> w == Step(w'.sent, Err(w'.result.error)))
    ensures var first := UploadScreenshot(env, s, sent, p, shots[0]);
            var v := UploadAndroidImages(env, s, first.sent, p, shots[1..]);
            UploadAndroidImages(env, s, sent, p, shots) ==
              if v.result.Err? then Step(v.sent, Err(v.result.error))
              else Step(v.sent, Ok([first.result.value] + v.result.value))
  {
    AllPrefix(AgreesIn(p), shots, k);
    PrefixTail(shots, k);
    UploadAndroidImagesUnfold(env, s, sent, p, shots);
    UploadAndroidImagesUnfold(env, s, sent, p, shots[..k]);
    AllPrefix(AgreesIn(p), shots[1..], k - 1);
  }

  /** When screenshot `k` is the first that cannot be recorded, the upload
      of all the screenshots is that of the ones before it followed, unless
      it failed, by the failing attempt at screenshot `k`. */
  lemma {:induction false} UploadStopsAt(env: Env, s: Settings, sent: seq<Request>, p: Provider,
                                         shots: seq<Screenshot>, k: nat)
    requires All(AgreesIn(p), shots)
    requires k < |shots| && AllReady(p, shots[..k]) && !Ready(p, shots[k])
    ensures All(AgreesIn(p), shots[..k])
    ensures var w := UploadAndroidImages(env, s, sent, p, shots[..k]);
            UploadAndroidImages(env, s, sent, p, shots) ==
              if w.result.Err? then w
              else
                var u := UploadScreenshot(env, s, w.sent, p, shots[k]);
                Step(u.sent, Err(u.result.error))
    decreases k
  {
    AllPrefix(AgreesIn(p), shots, k);
    if k == 0 {
      assert shots[..0] == [];
      AndroidFailsAtHead(env, s, sent, p, shots);
    } else {
      var first := UploadScreenshot(env, s, sent, p, shots[0]);
      PrefixTail(shots, k);
      AllReadyCons(p, shots[..k]);
      if first.result.Err? {
        PrefixHeadFails(env, s, sent, p, shots, k);
      } else {
        PrefixHeadSucceeds(env, s, sent, p, shots, k);
        UploadStopsAt(env, s, first.sent, p, shots[1..], k - 1);
      }
    }
  }

  /** When screenshot `k` is the first that cannot be recorded, the
      screenshots before it are uploaded as the reference walk does; unless
      that failed, screenshot `k` is then attempted from where they left the
      log, and the whole upload fails with its error. */
  lemma AndroidStopsAtFirstUnready(env: Env, s: Settings, sent: seq<Request>, p: Provider,
                                   shots: seq<Screenshot>, k: nat)
    requires All(AgreesIn(p), shots)
    requires k < |shots| && AllReady(p, shots[..k]) && !Ready(p, shots[k])
    ensures var w := AndroidWalk(env, s, sent, p, shots[..k]);
            UploadAndroidImages(env, s, sent, p, shots) ==
              if w.result.Err? then w
              else
                var u := UploadScreenshot(env, s, w.sent, p, shots[k]);
                Step(u.sent, Err(u.result.error))
  {
    UploadStopsAt(env, s, sent, p, shots, k);
    AndroidIsReference(env, s, sent, p, shots[..k]);
  }

  /** The index of the first screenshot that cannot be recorded, where the
      `map` over the metadata stops. */
  function FirstUnready(p: Provider, shots: seq<Screenshot>): (k: nat)
    requires !AllReady(p, shots)
    ensures k < |shots| && AllReady(p, shots[..k]) && !Ready(p, shots[k])
    decreases |shots|
  {
    AllReadyCons(p, shots);
    if !Ready(p, shots[0]) then
      assert shots[..0] == [];
      0
    else
      var k := FirstUnready(p, shots[1..]);
      PrefixTail(shots, k + 1);
      AllReadyCons(p, shots[..k + 1]);
      k + 1
  }

  /** Every screenshot of an all-ready prefix is ready. */
  lemma ReadyBefore(p: Provider, shots: seq<Screenshot>, j: nat, i: nat)
    requires i < j <= |shots| && AllReady(p, shots[..j])
    ensures Ready(p, shots[i])
  {
    assert shots[..j][i] == shots[i];
  }

  /** The first unready screenshot is the only index at which the upload can
      stop: before it every screenshot is ready. */
  lemma FirstUnreadyUnique(p: Provider, shots: seq<Screenshot>, j: nat)
    requires j < |shots| && AllReady(p, shots[..j]) && !Ready(p, shots[j])
    ensures FirstUnready(p, shots) == j
  {
    var k := FirstUnready(p, shots);
    if k < j {
      ReadyBefore(p, shots, j, k);
    } else if j < k {
      ReadyBefore(p, shots, k, j);
    }
  }
}
