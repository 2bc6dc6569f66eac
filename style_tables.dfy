/** The fixed look-up tables of the list view: status to header gradient,
    status to text colour, status to icon, release type to badge class and
    operating system to badge class. Each is an object literal read with
    `table[key] || fallback`, and each fallback is its first entry's value. */
module StyleTables {
  import opened Wrappers

  /** An object literal's entries, in source order. */
  type Table = seq<(string, string)>

  predicate DistinctKeys(t: Table) {
    forall i, j :: 0 <= i < j < |t| ==> t[i].0 != t[j].0
  }

  predicate IsKey(t: Table, key: string) {
    exists i :: 0 <= i < |t| && t[i].0 == key
  }

  /** `table[key]`: the value of the entry with that key, if any. */
  function Find(t: Table, key: string): (r: Option<string>)
    ensures r.None? <==> !IsKey(t, key)
    ensures r.Some? ==> exists i :: 0 <= i < |t| && t[i] == (key, r.value)
    decreases |t|
  {
    if t == [] then None
    else if t[0].0 == key then Some(t[0].1)
    else
      var r := Find(t[1..], key);
      assert IsKey(t, key) ==> IsKey(t[1..], key) by {
        if IsKey(t, key) {
          var i :| 0 <= i < |t| && t[i].0 == key;
          assert t[1..][i - 1].0 == key;
        }
      }
      assert r.Some? ==> exists i :: 0 <= i < |t| && t[i] == (key, r.value) by {
        if r.Some? {
          var i :| 0 <= i < |t[1..]| && t[1..][i] == (key, r.value);
          assert t[i + 1] == (key, r.value);
        }
      }
      r
  }

  /** `table[key] || fallback`: an absent key, or an empty value, gives the
      fallback. */
  function StyleFor(t: Table, key: string, fallback: string): string {
    match Find(t, key)
    case Some(v) => if v != "" then v else fallback
    case None => fallback
  }

  /** With distinct keys, a listed key gives its own entry's value. */
  lemma {:induction false} ListedKeyGivesItsValue(t: Table, i: nat, fallback: string)
    requires DistinctKeys(t)
    requires i < |t| && t[i].1 != ""
    ensures StyleFor(t, t[i].0, fallback) == t[i].1
    decreases i
  {
    if i > 0 {
      assert t[0].0 != t[i].0;
      ListedKeyGivesItsValue(t[1..], i - 1, fallback);
      assert t[1..][i - 1] == t[i];
    }
  }

  const Planning := "確認要釋出的項目中"
  const Developing := "開發中"
  const UserTesting := "User測試中"
  const InReview := "送審中"
  const Released := "完成上線"

  const StatusGradients: Table := [
    (Planning, "from-blue-500 to-blue-600"),
    (Developing, "from-yellow-500 to-orange-500"),
    (UserTesting, "from-purple-500 to-purple-600"),
    (InReview, "from-orange-500 to-red-500"),
    (Released, "from-green-500 to-emerald-600")]

  const StatusTextClasses: Table := [
    (Planning, "text-blue-700"),
    (Developing, "text-orange-700"),
    (UserTesting, "text-purple-700"),
    (InReview, "text-red-700"),
    (Released, "text-green-700")]

  const StatusIcons: Table := [
    (Planning, "📋"),
    (Developing, "⚡"),
    (UserTesting, "🧪"),
    (InReview, "📝"),
    (Released, "✅")]

  const TypeClasses: Table := [
    ("新增功能", "type-feature"),
    ("Bug修復", "type-bugfix"),
    ("新增功能&功能修復", "type-both")]

  const OsClasses: Table := [
    ("雙系統", "os-both"),
    ("iOS", "os-ios"),
    ("Android", "os-android")]

  /** What every table promises: a listed key gives its own value, any
      other key the value of the first entry, and the answer is always one
      of the listed values. */
  predicate BehavesAsTable(t: Table, key: string, r: string)
    requires |t| >= 1
  {
    (forall i :: 0 <= i < |t| && t[i].0 == key ==> r == t[i].1) &&
    (!IsKey(t, key) ==> r == t[0].1) &&
    (exists i :: 0 <= i < |t| && r == t[i].1)
  }

  lemma TableLaw(t: Table, key: string, fallback: string)
    requires |t| >= 1 && DistinctKeys(t)
    requires forall i :: 0 <= i < |t| ==> t[i].1 != ""
    requires fallback == t[0].1
    ensures BehavesAsTable(t, key, StyleFor(t, key, fallback))
  {
    var r := StyleFor(t, key, fallback);
    forall i | 0 <= i < |t| && t[i].0 == key ensures r == t[i].1 {
      ListedKeyGivesItsValue(t, i, fallback);
    }
    if IsKey(t, key) {
      var i :| 0 <= i < |t| && t[i].0 == key;
      ListedKeyGivesItsValue(t, i, fallback);
    } else {
      assert r == t[0].1;
    }
  }

  function StatusGradient(status: string): (r: string)
    ensures BehavesAsTable(StatusGradients, status, r)
  {
    TableLaw(StatusGradients, status, "from-blue-500 to-blue-600");
    StyleFor(StatusGradients, status, "from-blue-500 to-blue-600")
  }

  function StatusTextClass(status: string): (r: string)
    ensures BehavesAsTable(StatusTextClasses, status, r)
  {
    TableLaw(StatusTextClasses, status, "text-blue-700");
    StyleFor(StatusTextClasses, status, "text-blue-700")
  }

  function StatusIcon(status: string): (r: string)
    ensures BehavesAsTable(StatusIcons, status, r)
  {
    TableLaw(StatusIcons, status, "📋");
    StyleFor(StatusIcons, status, "📋")
  }

  function TypeClass(releaseType: string): (r: string)
    ensures BehavesAsTable(TypeClasses, releaseType, r)
  {
    TableLaw(TypeClasses, releaseType, "type-feature");
    StyleFor(TypeClasses, releaseType, "type-feature")
  }

  function OsClass(osType: string): (r: string)
    ensures BehavesAsTable(OsClasses, osType, r)
  {
    TableLaw(OsClasses, osType, "os-both");
    StyleFor(OsClasses, osType, "os-both")
  }

  /** An unknown status is drawn exactly like the first status of the
      lifecycle, in all three of its mappings. */
  lemma UnknownStatusLooksLikePlanning(status: string)
    requires status !in {Planning, Developing, UserTesting, InReview, Released}
    ensures StatusGradient(status) == StatusGradient(Planning)
    ensures StatusTextClass(status) == StatusTextClass(Planning)
    ensures StatusIcon(status) == StatusIcon(Planning)
  {
    assert !IsKey(StatusGradients, status);
    assert !IsKey(StatusTextClasses, status);
    assert !IsKey(StatusIcons, status);
    assert StatusGradients[0].0 == Planning;
    assert StatusTextClasses[0].0 == Planning;
    assert StatusIcons[0].0 == Planning;
  }

  /** The five statuses are told apart by every status mapping. */
  lemma StatusesAreDistinguished(i: nat, j: nat)
    requires i < 5 && j < 5 && i != j
    ensures StatusGradient(StatusGradients[i].0) != StatusGradient(StatusGradients[j].0)
    ensures StatusTextClass(StatusGradients[i].0) != StatusTextClass(StatusGradients[j].0)
    ensures StatusIcon(StatusGradients[i].0) != StatusIcon(StatusGradients[j].0)
  {
    assert StatusTextClasses[i].0 == StatusGradients[i].0 && StatusTextClasses[j].0 == StatusGradients[j].0;
    assert StatusIcons[i].0 == StatusGradients[i].0 && StatusIcons[j].0 == StatusGradients[j].0;
  }
}
