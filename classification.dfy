/** Turning the classifier's scores into the label shown to the user
    (`classifyImage` in app/components/FileUpload.tsx), and the static
    table of descriptions and treatments the result panel reads. */
module Classification {

  datatype Option<T> = None | Some(value: T)

  /** The model's output classes, in output order. */
  const Classes: seq<string> := ["Black Rot", "Black Measles", "Leaf Blight", "Healthy"]

  /** What the result panel shows for one class. */
  datatype DiseaseRecord = DiseaseRecord(description: string, solution: string)

  const DiseaseInfo: map<string, DiseaseRecord> := map[
    "Black Rot" := DiseaseRecord(
      "Penyakit jamur yang menyebabkan bercak hitam pada daun dan buah.",
      "Pangkas daun yang terinfeksi dan gunakan fungisida sesuai anjuran."),
    "Black Measles" := DiseaseRecord(
      "Penyakit yang menyebabkan bercak hitam dan nekrosis.",
      "Terapkan sanitasi kebun dan kontrol kelembapan."),
    "Leaf Blight" := DiseaseRecord(
      "Infeksi yang menyebabkan daun kering dan rontok.",
      "Hindari kelembaban berlebih dan semprot fungisida preventif."),
    "Healthy" := DiseaseRecord(
      "Daun dalam kondisi sehat tanpa gejala penyakit.",
      "Lanjutkan perawatan secara berkala untuk mencegah penyakit.")
  ]

  /** The largest score (`Math.max(...scores)` on a non-empty array). */
  function MaxScore(s: seq<real>): (m: real)
    requires |s| > 0
    ensures m in s
    ensures forall j :: 0 <= j < |s| ==> s[j] <= m
  {
    if |s| == 1 then s[0]
    else
      var rest := MaxScore(s[1..]);
      assert forall j :: 1 <= j < |s| ==> s[j] == s[1..][j - 1];
      if s[0] >= rest then s[0] else rest
  }

  /** Position of the first occurrence of `x`, or -1 when there is none
      (`indexOf`). */
  function IndexOf(s: seq<real>, x: real): (i: int)
    ensures -1 <= i < |s|
    ensures i == -1 <==> x !in s
    ensures i >= 0 ==> s[i] == x && forall j :: 0 <= j < i ==> s[j] != x
  {
    if |s| == 0 then -1
    else if s[0] == x then 0
    else
      var j := IndexOf(s[1..], x);
      assert forall k :: 1 <= k < |s| ==> s[k] == s[1..][k - 1];
      assert x in s[1..] ==> x in s;
      if j == -1 then -1 else j + 1
  }

  /** Reference definition: `i` holds a largest score and no earlier
      position holds one as large. */
  predicate IsFirstMax(s: seq<real>, i: int)
  {
    0 <= i < |s| &&
    (forall j :: 0 <= j < |s| ==> s[j] <= s[i]) &&
    (forall j :: 0 <= j < i ==> s[j] < s[i])
  }

  /** The index the page computes, `scores.indexOf(Math.max(...scores))`:
      -1 for no scores (the maximum of nothing is minus infinity, which
      `indexOf` does not find), otherwise the first largest score. */
  function ArgMax(s: seq<real>): (i: int)
    ensures i == -1 <==> |s| == 0
    ensures |s| > 0 ==> IsFirstMax(s, i)
  {
    if |s| == 0 then -1 else IndexOf(s, MaxScore(s))
  }

  /** At most one position is the first maximum. */
  lemma FirstMaxUnique(s: seq<real>, i: int, k: int)
    requires IsFirstMax(s, i) && IsFirstMax(s, k)
    ensures i == k
  {
    assert s[i] == s[k];
  }

  /** `ArgMax` picks exactly the first maximum, in both directions. */
  lemma ArgMaxIsFirstMax(s: seq<real>, i: int)
    requires |s| > 0
    ensures ArgMax(s) == i <==> IsFirstMax(s, i)
  {
    if IsFirstMax(s, i) {
      FirstMaxUnique(s, ArgMax(s), i);
    }
  }

  /** The label the page shows, `classes[maxIndex]`: none when there are
      no scores or the winning index is past the four classes. */
  function Predict(scores: seq<real>): (name: Option<string>)
    ensures |scores| == 0 ==> name == None
    ensures forall i :: IsFirstMax(scores, i) ==>
      name == if i < |Classes| then Some(Classes[i]) else None
    ensures name.Some? ==> name.value in Classes
  {
    var i := ArgMax(scores);
    if 0 <= i < |Classes| then Some(Classes[i]) else None
  }

  /** The result panel: shown only when there is a label, with the
      table's entry for it. Indexing the table with a label it lacks
      would fail in the page, so that is excluded. */
  function Panel(name: Option<string>): (shown: Option<DiseaseRecord>)
    requires name.Some? ==> name.value in DiseaseInfo
    ensures shown.Some? <==> name.Some?
    ensures shown.Some? ==> shown.value in DiseaseInfo.Values
    ensures name.Some? ==> shown == Some(DiseaseInfo[name.value])
  {
    match name
    case None => None
    case Some(n) => Some(DiseaseInfo[n])
  }

  /** The table has exactly one entry per class. */
  lemma EveryClassHasRecord()
    ensures forall c :: c in DiseaseInfo <==> c in Classes
  {
  }

  /** With the model's four scores there is always a label, it is one of
      the classes, and the panel can show its record. */
  lemma FourScoresGiveClass(scores: seq<real>)
    requires |scores| == 4
    ensures Predict(scores).Some?
    ensures Predict(scores).value in Classes
    ensures Predict(scores).value in DiseaseInfo
    ensures Panel(Predict(scores)).Some?
  {
    EveryClassHasRecord();
  }

  /** Any label at all has a record, so the panel never indexes the
      table with a missing key. */
  lemma LabelHasRecord(scores: seq<real>)
    ensures Predict(scores).Some? ==> Predict(scores).value in DiseaseInfo
  {
    EveryClassHasRecord();
  }

  /** A tie for the top score goes to the earlier class. */
  lemma TieGoesToFirst()
    ensures ArgMax([0.5, 0.5, 0.1, 0.0]) == 0
    ensures Predict([0.5, 0.5, 0.1, 0.0]) == Some("Black Rot")
  {
    ArgMaxIsFirstMax([0.5, 0.5, 0.1, 0.0], 0);
  }

  /** A winning fifth score has no class name, so nothing is shown. */
  lemma FifthScoreHasNoLabel()
    ensures Predict([0.1, 0.2, 0.0, 0.3, 0.4]) == None
  {
    assert IsFirstMax([0.1, 0.2, 0.0, 0.3, 0.4], 4);
  }
}
