/**
 * How the uploaded databases persist across page loads (src/App.tsx): the
 * images, base64-encoded, and the file names are each joined with "|||" and
 * kept under two keys of the browser's key/value storage; on load both are
 * split again, checked against each other and decoded.
 */
module Storage {
  import opened Wrappers
  import opened Text
  import opened Engine

  const DatabaseKey := "uploadedDatabase"
  const NamesKey := "databaseName"
  const Separator := "|||"

  /** The browser's key/value storage. */
  type Store = map<string, string>

  /** `localStorage.getItem(key)` is a non-empty string (the empty string is falsy). */
  predicate Holds(store: Store, key: string) {
    key in store && store[key] != ""
  }

  /** Both keys removed. */
  function Cleared(store: Store): (r: Store)
    ensures DatabaseKey !in r && NamesKey !in r
    ensures forall k :: k in store && k != DatabaseKey && k != NamesKey ==> k in r && r[k] == store[k]
    ensures forall k :: k in r ==> k in store
  {
    store - {DatabaseKey, NamesKey}
  }

  /** What loading finds under the two keys. */
  datatype Found = Nothing | Mismatched | Pieces(images: seq<string>, names: seq<string>)

  /** Written in two parts so that its first word is visible to proofs. */
  const MismatchMessage := "Mismatch" + " between number of databases and names in localStorage"

  /**
   * The first steps of the load: nothing happens unless both keys hold
   * text; the two texts split on the separator must give as many images as
   * names.
   */
  function Read(store: Store): (r: Found)
    ensures r.Nothing? <==> !(Holds(store, DatabaseKey) && Holds(store, NamesKey))
    ensures r.Mismatched? ==>
      |Split(store[DatabaseKey], Separator)| != |Split(store[NamesKey], Separator)|
    ensures r.Pieces? ==>
      && r.images == Split(store[DatabaseKey], Separator)
      && r.names == Split(store[NamesKey], Separator)
      && |r.images| == |r.names| >= 1
  {
    if !(Holds(store, DatabaseKey) && Holds(store, NamesKey)) then Nothing
    else
      var images := Split(store[DatabaseKey], Separator);
      var names := Split(store[NamesKey], Separator);
      if |images| != |names| then Mismatched else Pieces(images, names)
  }

  /** The number of non-empty pieces from index `from` on. */
  function NonEmpty(pieces: seq<string>, from: nat): nat
    requires from <= |pieces|
    decreases |pieces| - from
  {
    if from == |pieces| then 0
    else (if pieces[from] == "" then 0 else 1) + NonEmpty(pieces, from + 1)
  }

  lemma {:induction false} NonEmptyBound(pieces: seq<string>, from: nat)
    requires from <= |pieces|
    ensures NonEmpty(pieces, from) <= |pieces| - from
    decreases |pieces| - from
  {
    if from < |pieces| {
      NonEmptyBound(pieces, from + 1);
    }
  }

  /** The message the load throws when piece `i` does not decode. */
  function DecodeFailure(name: string, reason: string): string {
    "Failed to decode database " + name + ": " + reason
  }

  /** Every non-empty piece from index `from` on decodes. */
  predicate AllDecode(decode: string -> Result<Db>, images: seq<string>, from: nat) {
    forall j :: from <= j < |images| && images[j] != "" ==> decode(images[j]).Success?
  }

  /** Piece `i` is the first non-empty piece from `from` on that does not decode. */
  predicate FirstFailure(decode: string -> Result<Db>, images: seq<string>, from: nat, i: nat) {
    && from <= i < |images| && images[i] != "" && decode(images[i]).Failure?
    && forall j :: from <= j < i && images[j] != "" ==> decode(images[j]).Success?
  }

  /** The databases the non-empty pieces from `from` on decode to, in order. */
  function DecodedPieces(decode: string -> Result<Db>, images: seq<string>, from: nat): (dbs: seq<Db>)
    requires from <= |images| && AllDecode(decode, images, from)
    ensures |dbs| == NonEmpty(images, from)
    decreases |images| - from
  {
    if from == |images| then []
    else if images[from] == "" then DecodedPieces(decode, images, from + 1)
    else [decode(images[from]).value] + DecodedPieces(decode, images, from + 1)
  }

  /**
   * The decoding loop from piece `from` on: an empty piece is skipped; the
   * first piece that does not decode aborts the load, naming its database.
   */
  function DecodeFrom(decode: string -> Result<Db>, images: seq<string>, names: seq<string>, from: nat, acc: seq<Db>): (r: Result<seq<Db>>)
    requires |images| == |names| && from <= |images|
    ensures r.Success? <==> AllDecode(decode, images, from)
    ensures r.Success? ==> r.value == acc + DecodedPieces(decode, images, from)
    ensures r.Failure? ==> exists i: nat :: (FirstFailure(decode, images, from, i)
      && r.error == DecodeFailure(names[i], decode(images[i]).error))
    decreases |images| - from
  {
    if from == |images| then Success(acc)
    else if images[from] == "" then DecodeFrom(decode, images, names, from + 1, acc)
    else
      match decode(images[from])
      case Failure(m) =>
        assert FirstFailure(decode, images, from, from);
        Failure(DecodeFailure(names[from], m))
      case Success(db) =>
        var r := DecodeFrom(decode, images, names, from + 1, acc + [db]);
        assert r.Success? ==> (acc + [db]) + DecodedPieces(decode, images, from + 1) == acc + DecodedPieces(decode, images, from);
        r
  }

  /** Every piece decoded, empty pieces skipped: never more databases than names. */
  function DecodeAll(decode: string -> Result<Db>, images: seq<string>, names: seq<string>): (r: Result<seq<Db>>)
    requires |images| == |names|
    ensures r.Success? <==> AllDecode(decode, images, 0)
    ensures r.Success? ==> r.value == DecodedPieces(decode, images, 0) && |r.value| <= |names|
    ensures r.Failure? ==> exists i: nat :: (FirstFailure(decode, images, 0, i)
      && r.error == DecodeFailure(names[i], decode(images[i]).error))
  {
    NonEmptyBound(images, 0);
    DecodeFrom(decode, images, names, 0, [])
  }

  method DecodeStored(decode: string -> Result<Db>, images: seq<string>, names: seq<string>) returns (r: Result<seq<Db>>)
    requires |images| == |names|
    ensures r == DecodeAll(decode, images, names)
  {
    var instances: seq<Db> := [];
    var i := 0;
    while i < |images|
      invariant 0 <= i <= |images|
      invariant DecodeAll(decode, images, names) == DecodeFrom(decode, images, names, i, instances)
    {
      if images[i] != "" {
        var decoded := decode(images[i]);
        if decoded.Failure? {
          return Failure(DecodeFailure(names[i], decoded.error));
        }
        instances := instances + [decoded.value];
      }
      i := i + 1;
    }
    return Success(instances);
  }

  /** A failed load clears the storage when its message mentions a mismatch or a decoding failure. */
  predicate ClearsStorage(message: string)
    ensures StartsWith(message, "Mismatch") ==> ClearsStorage(message)
    ensures StartsWith(message, "Failed to decode") ==> ClearsStorage(message)
    ensures ClearsStorage(message) <==> exists i :: 0 <= i <= |message| && MentionsFailure(message[i..])
  {
    assert message[0..] == message;
    Contains(message, "Mismatch") || Contains(message, "Failed to decode")
  }

  /** The text from some position on opens with one of the two phrases the load's handler looks for. */
  predicate MentionsFailure(t: string) {
    StartsWith(t, "Mismatch") || StartsWith(t, "Failed to decode")
  }

  /** Both messages the load itself throws clear the storage. */
  lemma LoadFailuresClear(name: string, reason: string)
    ensures ClearsStorage(MismatchMessage)
    ensures ClearsStorage(DecodeFailure(name, reason))
  {
    assert MismatchMessage[..8] == "Mismatch";
    assert DecodeFailure(name, reason)[..16] == "Failed to decode";
  }

  /** How the load's own steps end: nothing stored, a failure, or the decoded databases with their names. */
  datatype Load = NothingStored | LoadFailed(error: string) | Decoded(instances: seq<Db>, names: seq<string>)

  /** The load up to the merge: the two keys read, split, checked against each other and decoded. */
  function LoadStored(store: Store, decode: string -> Result<Db>): (r: Load)
    ensures r.NothingStored? <==> Read(store).Nothing?
    ensures r.Decoded? ==> Read(store).Pieces? && r.names == Read(store).names && |r.instances| <= |r.names|
  {
    match Read(store)
    case Nothing => NothingStored
    case Mismatched => LoadFailed(MismatchMessage)
    case Pieces(images, names) =>
      match DecodeAll(decode, images, names)
      case Failure(m) => LoadFailed(m)
      case Success(dbs) => Decoded(dbs, names)
  }

  /** The load's own steps in order: read, split, compare, decode. */
  method LoadPieces(store: Store, decode: string -> Result<Db>) returns (r: Load)
    ensures r == LoadStored(store, decode)
  {
    var found := Read(store);
    if found.Nothing? {
      return NothingStored;
    }
    if found.Mismatched? {
      return LoadFailed(MismatchMessage);
    }
    var decoded := DecodeStored(decode, found.images, found.names);
    if decoded.Failure? {
      return LoadFailed(decoded.error);
    }
    return Decoded(decoded.value, found.names);
  }

  /** Every failure of the load's own steps removes both keys. */
  lemma LoadStoredFailureClears(store: Store, decode: string -> Result<Db>)
    requires LoadStored(store, decode).LoadFailed?
    ensures ClearsStorage(LoadStored(store, decode).error)
  {
    match Read(store)
    case Mismatched =>
      LoadFailuresClear("", "");
    case Pieces(images, names) =>
      var i: nat :| FirstFailure(decode, images, 0, i)
        && DecodeAll(decode, images, names).error == DecodeFailure(names[i], decode(images[i]).error);
      LoadFailuresClear(names[i], decode(images[i]).error);
  }

  /**
   * What an upload writes: the images of the files of this upload only,
   * but the names of every database uploaded so far.
   */
  function UploadStore(store: Store, newImages: seq<string>, allNames: seq<string>): (r: Store)
    ensures DatabaseKey in r && NamesKey in r
    ensures r[DatabaseKey] == Join(newImages, Separator) && r[NamesKey] == Join(allNames, Separator)
    ensures forall k :: k in store && k != DatabaseKey && k != NamesKey ==> k in r && r[k] == store[k]
  {
    store[DatabaseKey := Join(newImages, Separator)][NamesKey := Join(allNames, Separator)]
  }

  /** No piece holds the separator's first character, and none is empty. */
  predicate Storable(pieces: seq<string>) {
    forall k :: 0 <= k < |pieces| ==> pieces[k] != "" && '|' !in pieces[k]
  }

  /**
   * After a second upload the stored images no longer match the stored
   * names: the next load fails with the mismatch and clears both keys.
   */
  lemma UploadAfterUploadMismatch(store: Store, newImages: seq<string>, allNames: seq<string>)
    requires |newImages| >= 1 && |allNames| > |newImages|
    requires Storable(newImages) && Storable(allNames)
    ensures Read(UploadStore(store, newImages, allNames)).Mismatched?
  {
    var s := UploadStore(store, newImages, allNames);
    SplitJoin(newImages, Separator);
    SplitJoin(allNames, Separator);
    JoinNonEmpty(newImages, Separator);
    JoinNonEmpty(allNames, Separator);
  }

  lemma {:induction false} JoinNonEmpty(xs: seq<string>, sep: string)
    requires |xs| >= 1 && xs[0] != ""
    ensures Join(xs, sep) != ""
  {
    if |xs| > 1 {
      assert |Join(xs, sep)| >= |xs[0]|;
    }
  }

  /** The images already stored: none unless the key holds text. */
  function StoredImages(store: Store): (images: seq<string>)
    ensures !Holds(store, DatabaseKey) ==> images == []
    ensures Holds(store, DatabaseKey) ==> images == Split(store[DatabaseKey], Separator)
  {
    if Holds(store, DatabaseKey) then Split(store[DatabaseKey], Separator) else []
  }

  /**
   * The write the upload evidently intends: the new images appended to
   * those already stored, so that images and names stay in step.
   */
  function AppendStore(store: Store, oldImages: seq<string>, newImages: seq<string>, allNames: seq<string>): (r: Store)
    ensures DatabaseKey in r && NamesKey in r
    ensures r[DatabaseKey] == Join(oldImages + newImages, Separator) && r[NamesKey] == Join(allNames, Separator)
    ensures forall k :: k in store && k != DatabaseKey && k != NamesKey ==> k in r && r[k] == store[k]
  {
    store[DatabaseKey := Join(oldImages + newImages, Separator)][NamesKey := Join(allNames, Separator)]
  }

  /** What the intended write stores is what the next upload finds already stored. */
  lemma StoredImagesAfterAppend(store: Store, oldImages: seq<string>, newImages: seq<string>, allNames: seq<string>)
    requires |oldImages + newImages| >= 1 && Storable(oldImages + newImages)
    ensures StoredImages(AppendStore(store, oldImages, newImages, allNames)) == oldImages + newImages
  {
    var images := oldImages + newImages;
    SplitJoin(images, Separator);
    JoinNonEmpty(images, Separator);
  }

  /**
   * With the intended write, a load after any upload reads back every image
   * stored so far next to every name, in upload order.
   */
  lemma AppendStoreRoundTrip(store: Store, oldImages: seq<string>, oldNames: seq<string>, newImages: seq<string>, newNames: seq<string>)
    requires |oldImages| == |oldNames| && |newImages| == |newNames| >= 1
    requires Storable(oldImages) && Storable(oldNames) && Storable(newImages) && Storable(newNames)
    ensures Read(AppendStore(store, oldImages, newImages, oldNames + newNames)) == Pieces(oldImages + newImages, oldNames + newNames)
  {
    var images, names := oldImages + newImages, oldNames + newNames;
    assert Storable(images) && Storable(names);
    SplitJoin(images, Separator);
    SplitJoin(names, Separator);
    JoinNonEmpty(images, Separator);
    JoinNonEmpty(names, Separator);
  }

  /**
   * Two uploads in a row with the intended write: the second finds the
   * first one's images, and a load afterwards reads every image next to
   * every name.
   */
  lemma UploadTwiceRoundTrip(store: Store, images1: seq<string>, names1: seq<string>, images2: seq<string>, names2: seq<string>)
    requires !Holds(store, DatabaseKey)
    requires |images1| == |names1| >= 1 && |images2| == |names2| >= 1
    requires Storable(images1) && Storable(names1) && Storable(images2) && Storable(names2)
    ensures var first := AppendStore(store, StoredImages(store), images1, names1);
      var second := AppendStore(first, StoredImages(first), images2, names1 + names2);
      Read(second) == Pieces(images1 + images2, names1 + names2)
  {
    var first := AppendStore(store, StoredImages(store), images1, names1);
    assert StoredImages(store) + images1 == images1;
    StoredImagesAfterAppend(store, [], images1, names1);
    AppendStoreRoundTrip(first, images1, names1, images2, names2);
  }
}
