/**
 * The face recognizer's bookkeeping: which files of the trusted-faces
 * directory are read and the name each one gives, the order in which a
 * probe face is matched against the trusted gallery and then the intruder
 * database, and the registration of a new intruder. Face encodings are
 * opaque vectors and the distance between two of them is an oracle.
 */
module Faces {
  import opened Wrappers
  import opened Text

  type Encoding = seq<real>

  /** The name returned for a face that matches nobody. */
  const UnknownName := "Unknown"
  /** The name returned for a face found in the intruder database. */
  const RepeatIntruderName := "REPEAT_INTRUDER"
  /** Smallest accepted confidence, where confidence is 1 - distance. */
  const MinConfidence: real := 0.55
  const IntruderPrefix := "INTRUDER_"

  /** The result of identifying one face: a name and, for a repeat intruder, its id. */
  datatype Identification = Identification(name: string, intruderId: Option<string>)

  // ---- trusted-face files ----

  /** Only files whose lower-cased name ends in .jpg, .jpeg or .png are read. */
  predicate IsImageFile(filename: string) {
    var l := Lower(filename);
    EndsWith(l, ".jpg") || EndsWith(l, ".jpeg") || EndsWith(l, ".png")
  }

  /**
   * The person's name in a trusted-face file name: the part before the
   * last "_sample_", then before the last "_", then before the last ".".
   */
  function NameFromFilename(filename: string): (name: string)
    ensures name <= filename
  {
    var a := BeforeLast(filename, "_sample_");
    var b := BeforeLast(a, "_");
    var c := BeforeLast(b, ".");
    assert c <= b <= a <= filename;
    c
  }

  /**
   * A file named <name>_sample_<rest>, where the name has no '_' or '.'
   * and the rest no '_', gives exactly that name.
   */
  lemma NameFromSampleName(n: string, t: string)
    requires '_' !in n && '.' !in n && '_' !in t
    ensures NameFromFilename(n + "_sample_" + t) == n
  {
    var sep := "_sample_";
    var s := n + sep + t;
    assert s[|n|..|n| + |sep|] == sep;
    forall k | |n| < k <= |s| - |sep| ensures !(sep <= s[k..]) {
      assert s[k + 7] == t[k + 7 - |n| - |sep|];
    }
    BeforeLastAt(s, sep, |n|);
    assert s[..|n|] == n;
    AbsentChar(n, '_');
    AbsentChar(n, '.');
  }

  /** The example in the source: "Jatin Gupta_sample_1.jpg" names Jatin Gupta. */
  lemma NameFromSampleFile()
    ensures NameFromFilename("Jatin Gupta_sample_1.jpg") == "Jatin Gupta"
  {
    assert "Jatin Gupta_sample_1.jpg" == "Jatin Gupta" + "_sample_" + "1.jpg";
    NameFromSampleName("Jatin Gupta", "1.jpg");
  }

  /** A one-character separator that does not occur leaves `rsplit` nothing to cut. */
  lemma AbsentChar(s: string, c: char)
    requires c !in s
    ensures BeforeLast(s, [c]) == s
  {
    forall i | 0 <= i <= |s| - 1 ensures !([c] <= s[i..]) {
      assert s[i..][0] == s[i];
    }
    BeforeLastSpec(s, [c]);
  }

  /** One trusted-face file: its name and the first face encoding found in it, if any. */
  datatype TrustedFile = TrustedFile(filename: string, encoding: Option<Encoding>)

  /** A file that yields a gallery entry: an image file in which a face was found. */
  predicate Loadable(f: TrustedFile) {
    IsImageFile(f.filename) && f.encoding.Some?
  }

  datatype Gallery = Gallery(encodings: seq<Encoding>, names: seq<string>)

  /**
   * What one file adds to the gallery: nothing is removed or changed, and
   * a loadable file appends one entry, its first encoding and the name in
   * its file name.
   */
  function AddFile(g: Gallery, f: TrustedFile): (r: Gallery)
    ensures g.encodings <= r.encodings && g.names <= r.names
    ensures |r.encodings| == |g.encodings| + (if Loadable(f) then 1 else 0)
    ensures |r.names| == |g.names| + (if Loadable(f) then 1 else 0)
    ensures Loadable(f) ==> r.encodings[|g.encodings|] == f.encoding.value
                            && r.names[|g.names|] == NameFromFilename(f.filename)
  {
    if Loadable(f) then Gallery(g.encodings + [f.encoding.value], g.names + [NameFromFilename(f.filename)])
    else g
  }

  /**
   * What loading the trusted-face directory adds: one entry per image
   * file in which a face was found, in directory order.
   */
  function LoadTrusted(files: seq<TrustedFile>): (g: Gallery)
    ensures |g.encodings| == |g.names| <= |files|
  {
    if files == [] then Gallery([], [])
    else AddFile(LoadTrusted(files[..|files| - 1]), files[|files| - 1])
  }

  /** Loading one more file extends the gallery by that file alone. */
  lemma LoadTrustedStep(files: seq<TrustedFile>, i: nat)
    requires i < |files|
    ensures LoadTrusted(files[..i + 1]) == AddFile(LoadTrusted(files[..i]), files[i])
  {
    assert files[..i + 1][..i] == files[..i];
  }

  // ---- matching a probe face ----

  /** Python's `np.argmin`: the first index of a smallest element. */
  function ArgMin(ds: seq<real>): (k: nat)
    requires ds != []
    ensures k < |ds|
    ensures forall j :: 0 <= j < |ds| ==> ds[k] <= ds[j]
    ensures forall j :: 0 <= j < k ==> ds[k] < ds[j]
  {
    if |ds| == 1 then 0
    else
      var k := ArgMin(ds[..|ds| - 1]);
      if ds[|ds| - 1] < ds[k] then |ds| - 1 else k
  }

  /** `face_distance(encodings, probe)`. */
  function Distances(encodings: seq<Encoding>, probe: Encoding, distance: (Encoding, Encoding) -> real): (ds: seq<real>)
    ensures |ds| == |encodings|
    ensures forall i :: 0 <= i < |ds| ==> ds[i] == distance(encodings[i], probe)
  {
    seq(|encodings|, i requires 0 <= i < |encodings| => distance(encodings[i], probe))
  }

  /** A match is accepted when it is within the tolerance AND its confidence is high enough. */
  predicate Accepted(d: real, tolerance: real) {
    d < tolerance && 1.0 - d >= MinConfidence
  }

  /**
   * The index of the closest stored encoding when that closest one is
   * accepted. None exactly when no stored encoding is accepted at all
   * (an empty list included).
   */
  function BestMatch(encodings: seq<Encoding>, probe: Encoding, distance: (Encoding, Encoding) -> real,
                     tolerance: real): (r: Option<nat>)
    ensures r.None? <==> forall j :: 0 <= j < |encodings| ==> !Accepted(distance(encodings[j], probe), tolerance)
    ensures r.Some? ==> r.value < |encodings|
    ensures r.Some? ==> Accepted(distance(encodings[r.value], probe), tolerance)
    ensures r.Some? ==> r.value == ArgMin(Distances(encodings, probe, distance))
  {
    if encodings == [] then None
    else
      var ds := Distances(encodings, probe, distance);
      var k := ArgMin(ds);
      if Accepted(ds[k], tolerance) then Some(k) else None
  }

  /**
   * `_identify_face`: the trusted gallery first, then the intruder
   * database, else unknown.
   */
  function IdentifyFace(known: Gallery, intruders: seq<Encoding>, ids: seq<string>, probe: Encoding,
                        distance: (Encoding, Encoding) -> real, tolerance: real): (r: Identification)
    requires |known.encodings| == |known.names| && |intruders| == |ids|
    ensures r.intruderId.Some? ==> r.name == RepeatIntruderName && r.intruderId.value in ids
    ensures r.intruderId.None? ==> r.name in known.names || r.name == UnknownName
  {
    match BestMatch(known.encodings, probe, distance, tolerance)
    case Some(k) => Identification(known.names[k], None)
    case None =>
      match BestMatch(intruders, probe, distance, tolerance)
      case Some(k) => Identification(RepeatIntruderName, Some(ids[k]))
      case None => Identification(UnknownName, None)
  }

  /**
   * An accepted trusted match wins: the name of the first closest trusted
   * encoding, with no intruder id, whatever the intruder database holds.
   */
  lemma TrustedMatchFirst(known: Gallery, intruders: seq<Encoding>, ids: seq<string>,
                          otherIntruders: seq<Encoding>, otherIds: seq<string>, probe: Encoding,
                          distance: (Encoding, Encoding) -> real, tolerance: real, j: nat)
    requires |known.encodings| == |known.names| && |intruders| == |ids| && |otherIntruders| == |otherIds|
    requires j < |known.encodings| && Accepted(distance(known.encodings[j], probe), tolerance)
    ensures var k := ArgMin(Distances(known.encodings, probe, distance));
            IdentifyFace(known, intruders, ids, probe, distance, tolerance) == Identification(known.names[k], None)
    ensures IdentifyFace(known, intruders, ids, probe, distance, tolerance)
         == IdentifyFace(known, otherIntruders, otherIds, probe, distance, tolerance)
  {
  }

  /**
   * Without an accepted trusted match, an accepted intruder match gives
   * REPEAT_INTRUDER with the id of the first closest intruder encoding;
   * with no accepted match at all the face is Unknown.
   */
  lemma IntruderOrUnknown(known: Gallery, intruders: seq<Encoding>, ids: seq<string>, probe: Encoding,
                          distance: (Encoding, Encoding) -> real, tolerance: real)
    requires |known.encodings| == |known.names| && |intruders| == |ids|
    requires forall j :: 0 <= j < |known.encodings| ==> !Accepted(distance(known.encodings[j], probe), tolerance)
    ensures (exists j :: 0 <= j < |intruders| && Accepted(distance(intruders[j], probe), tolerance)) ==>
              var k := ArgMin(Distances(intruders, probe, distance));
              IdentifyFace(known, intruders, ids, probe, distance, tolerance)
                == Identification(RepeatIntruderName, Some(ids[k]))
    ensures (forall j :: 0 <= j < |intruders| ==> !Accepted(distance(intruders[j], probe), tolerance)) ==>
              IdentifyFace(known, intruders, ids, probe, distance, tolerance) == Identification(UnknownName, None)
  {
  }

  // ---- intruder ids ----

  /** `f"INTRUDER_{n:03d}"`. */
  function IntruderId(n: nat): string {
    IntruderPrefix + ZeroPad(n, 3)
  }

  /** The first intruder is INTRUDER_001. */
  lemma IntruderIdFirst()
    ensures IntruderId(1) == "INTRUDER_001"
  {
    assert Digits(1) == "1";
    assert Zeros(2) == "00" by {
      assert Zeros(1) == Zeros(0) + ['0'];
    }
  }

  /**
   * Ids are padded to three digits: below 1000 the number takes exactly
   * three characters, from 1000 on it is written in full, without padding.
   */
  lemma IntruderIdWidth(n: nat)
    ensures n < 1000 ==> |IntruderId(n)| == |IntruderPrefix| + 3
    ensures n >= 1000 ==> IntruderId(n) == IntruderPrefix + Digits(n)
  {
    DigitsWidth(n, 3);
    assert Pow10(3) == 1000 by {
      assert Pow10(1) == 10;
      assert Pow10(2) == 100;
    }
    if n >= 1000 {
      assert Zeros(0) + Digits(n) == Digits(n);
    }
  }

  /** The number of an intruder id written by IntruderId. */
  function IntruderNumber(id: string): nat
    requires |id| >= |IntruderPrefix| && IsDigits(id[|IntruderPrefix|..])
  {
    DecimalValue(id[|IntruderPrefix|..])
  }

  /** An intruder id is the prefix followed by at least three digits that spell its number. */
  lemma IntruderIdRoundTrip(n: nat)
    ensures var id := IntruderId(n);
            |id| >= |IntruderPrefix| + 3 && id[..|IntruderPrefix|] == IntruderPrefix
            && IsDigits(id[|IntruderPrefix|..]) && IntruderNumber(id) == n
  {
    var id := IntruderId(n);
    assert id[|IntruderPrefix|..] == ZeroPad(n, 3);
  }

  /** Distinct numbers give distinct ids. */
  lemma IntruderIdInjective(m: nat, n: nat)
    requires IntruderId(m) == IntruderId(n)
    ensures m == n
  {
    IntruderIdRoundTrip(m);
    IntruderIdRoundTrip(n);
  }

  /** Ids as registered one by one from an empty database: the i-th is INTRUDER_(i+1). */
  ghost predicate WellNumbered(ids: seq<string>) {
    forall i :: 0 <= i < |ids| ==> ids[i] == IntruderId(i + 1)
  }

  lemma WellNumberedDistinct(ids: seq<string>)
    requires WellNumbered(ids)
    ensures forall i, j :: 0 <= i < j < |ids| ==> ids[i] != ids[j]
  {
    forall i, j | 0 <= i < j < |ids| ensures ids[i] != ids[j] {
      if ids[i] == ids[j] {
        IntruderIdInjective(i + 1, j + 1);
      }
    }
  }

  /** The intruder database as stored on disk: encodings and ids in parallel. */
  datatype IntruderDatabase = IntruderDatabase(encodings: seq<Encoding>, ids: seq<string>)

  /** The recognizer: a trusted gallery and an intruder database, both appended to in place. */
  class FaceRecognizer {
    const tolerance: real
    var knownEncodings: seq<Encoding>
    var knownNames: seq<string>
    var intruderEncodings: seq<Encoding>
    var intruderIds: seq<string>

    ghost predicate Valid()
      reads this
    {
      |knownEncodings| == |knownNames| && |intruderEncodings| == |intruderIds|
    }

    function Known(): Gallery
      reads this
    {
      Gallery(knownEncodings, knownNames)
    }

    /**
     * Loads the trusted faces from `files`, then the intruder database
     * (None when the database file is absent or unreadable).
     */
    constructor (tolerance: real, files: seq<TrustedFile>, database: Option<IntruderDatabase>)
      requires database.Some? ==> |database.value.encodings| == |database.value.ids|
      ensures Valid() && this.tolerance == tolerance
      ensures Known() == LoadTrusted(files)
      ensures database.None? ==> intruderEncodings == [] && intruderIds == []
      ensures database.Some? ==> intruderEncodings == database.value.encodings && intruderIds == database.value.ids
    {
      this.tolerance := tolerance;
      knownEncodings, knownNames := [], [];
      intruderEncodings, intruderIds := [], [];
      new;
      LoadTrustedFaces(files);
      if database.Some? {
        intruderEncodings := database.value.encodings;
        intruderIds := database.value.ids;
      }
    }

    /** `_load_trusted_faces`: appends one entry per image file with a face, in order. */
    method LoadTrustedFaces(files: seq<TrustedFile>)
      requires Valid()
      modifies this
      ensures Valid()
      ensures knownEncodings == old(knownEncodings) + LoadTrusted(files).encodings
      ensures knownNames == old(knownNames) + LoadTrusted(files).names
      ensures intruderEncodings == old(intruderEncodings) && intruderIds == old(intruderIds)
    {
      var loaded := Gallery([], []);
      var i := 0;
      while i < |files|
        invariant 0 <= i <= |files|
        invariant loaded == LoadTrusted(files[..i])
        invariant unchanged(this)
      {
        LoadTrustedStep(files, i);
        loaded := AddFile(loaded, files[i]);
        i := i + 1;
      }
      assert files[..|files|] == files;
      knownEncodings := knownEncodings + loaded.encodings;
      knownNames := knownNames + loaded.names;
    }

    /** `_identify_face` against the current gallery and database. */
    function Identify(probe: Encoding, distance: (Encoding, Encoding) -> real): (r: Identification)
      reads this
      requires Valid()
      ensures r.intruderId.Some? ==> r.name == RepeatIntruderName && r.intruderId.value in intruderIds
      ensures r.intruderId.None? ==> r.name in knownNames || r.name == UnknownName
    {
      IdentifyFace(Known(), intruderEncodings, intruderIds, probe, distance, tolerance)
    }

    /** `recognize_faces`: one identification per face found in the frame, in order. */
    method RecognizeFaces(encodings: seq<Encoding>, distance: (Encoding, Encoding) -> real)
      returns (results: seq<Identification>)
      requires Valid()
      ensures |results| == |encodings|
      ensures forall i :: 0 <= i < |encodings| ==> results[i] == Identify(encodings[i], distance)
    {
      results := [];
      for i := 0 to |encodings|
        invariant |results| == i
        invariant forall j :: 0 <= j < i ==> results[j] == Identify(encodings[j], distance)
      {
        results := results + [Identify(encodings[i], distance)];
      }
    }

    /**
     * `add_intruder`: appends one encoding and one id, the id being
     * INTRUDER_ followed by the new count, zero-padded to three digits.
     */
    method AddIntruder(encoding: Encoding) returns (id: string)
      requires Valid()
      modifies this
      ensures Valid()
      ensures id == IntruderId(|old(intruderIds)| + 1)
      ensures intruderIds == old(intruderIds) + [id]
      ensures intruderEncodings == old(intruderEncodings) + [encoding]
      ensures knownEncodings == old(knownEncodings) && knownNames == old(knownNames)
      ensures WellNumbered(old(intruderIds)) ==> WellNumbered(intruderIds)
    {
      id := IntruderId(|intruderIds| + 1);
      intruderEncodings := intruderEncodings + [encoding];
      intruderIds := intruderIds + [id];
    }
  }
}
