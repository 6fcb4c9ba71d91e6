/** Shared value types of the recorder model: optional values (Kotlin's nullable
    types), bytes, the failures the recorder can stop with (the exceptions it
    throws), and a result that carries either a value or one such failure. */
module Common {

  /** A Kotlin `T?`: `None` is `null`. */
  datatype Option<+T> = None | Some(value: T)

  /** One byte of a file or of an encoded image. */
  newtype byte = x: int | 0 <= x < 256

  /** Every way the recorder aborts. Each one is an exception in the source; the
      model returns it instead of throwing. */
  datatype Error =
    | EmptyChannel                      // doRecorder: "empty channel"
    | NoDirectory                       // doRecorder: "no directory specified"
    | MissingTileCount                  // tile_width!! or tile_height!! on null
    | BadTileCount                      // negative array size, or imgs[0] / it[0] on an empty array
    | TileUnreadable(file: string)      // the image provider has no decodable tile of that name
    | MissingName                       // screenshot.name!! on null, after the upload
    | NotADirectory(path: string)       // listFiles() gave null in the iOS walk
    | MissingCredentials                // readConfig() failed while resolving the API key or secret
    | RegistrationFailed(file: string)  // the POST to /api/screenshot gave no usable reply
    | UploadFailed                      // "Error while uploading image data"
    | RunFailed(status: int)            // "Failed to finalize run, got code ..."

  /** Either the value an operation computed or the failure that aborted it. */
  datatype Result<+T> = Ok(value: T) | Err(error: Error)

  /** `P` holds of every element of `xs`. */
  predicate All<T>(P: T -> bool, xs: seq<T>)
  {
    forall i :: 0 <= i < |xs| ==> P(xs[i])
  }

  /** A non-empty sequence satisfies `All` exactly when its head and its tail
      do. */
  lemma AllCons<T>(P: T -> bool, xs: seq<T>)
    requires xs != []
    ensures All(P, xs) <==> P(xs[0]) && All(P, xs[1..])
  {
    if P(xs[0]) && All(P, xs[1..]) {
      forall i | 0 < i < |xs| ensures P(xs[i]) {
        assert xs[i] == xs[1..][i - 1];
      }
    }
  }

  /** `f` applied to every element of `xs`, in order. */
  function Map<A, B>(f: A --> B, xs: seq<A>): (ys: seq<B>)
    requires forall i :: 0 <= i < |xs| ==> f.requires(xs[i])
    ensures |ys| == |xs| && forall i :: 0 <= i < |xs| ==> ys[i] == f(xs[i])
  {
    seq(|xs|, i requires 0 <= i < |xs| => f(xs[i]))
  }

  /** `Map` over a non-empty sequence maps its head and then its tail. */
  lemma MapCons<A, B>(f: A --> B, xs: seq<A>)
    requires xs != [] && forall i :: 0 <= i < |xs| ==> f.requires(xs[i])
    ensures forall i :: 0 <= i < |xs[1..]| ==> f.requires(xs[1..][i])
    ensures Map(f, xs) == [f(xs[0])] + Map(f, xs[1..])
  {
    assert forall i :: 0 <= i < |xs[1..]| ==> xs[1..][i] == xs[i + 1];
  }

  /** Dropping the head of a non-empty prefix is taking the prefix of the
      tail. */
  lemma PrefixTail<T>(xs: seq<T>, k: nat)
    requires 0 < k < |xs|
    ensures xs[..k][0] == xs[0] && xs[..k][1..] == xs[1..][..k - 1] && xs[1..][k - 1] == xs[k]
  {
  }

  /** `All` holds of every prefix of a sequence it holds of. */
  lemma AllPrefix<T>(P: T -> bool, xs: seq<T>, k: nat)
    requires k <= |xs| && All(P, xs)
    ensures All(P, xs[..k])
  {
  }
}
