/**
  Selecting the releases to test against: the filters a parser applies and the newest patch
  of every minor version. Dictionaries keep their keys in the order of insertion.
 */
module Releases {
  import opened Wrappers

  datatype Version = Version(text: string, major: nat, minor: nat, patch: nat, stable: bool)

  datatype Release = Release(version: Version, tag: string)

  const PLACEHOLDER := Release(Version("0.0.0", 0, 0, 0, true), "")

  predicate InGroup(r: Release, major: nat, minor: nat) {
    r.version.major == major && r.version.minor == minor
  }

  predicate SameGroup(a: Release, b: Release) {
    InGroup(a, b.version.major, b.version.minor)
  }

  // ---------------------------------------------------------------- the selection

  /** Major versions in the order they are first seen. */
  function Majors(rs: seq<Release>): seq<nat> {
    if rs == [] then []
    else
      var front, major := Majors(rs[..|rs| - 1]), rs[|rs| - 1].version.major;
      if major in front then front else front + [major]
  }

  /** Minor versions of one major version in the order they are first seen. */
  function Minors(rs: seq<Release>, major: nat): seq<nat> {
    if rs == [] then []
    else
      var front, v := Minors(rs[..|rs| - 1], major), rs[|rs| - 1].version;
      if v.major != major || v.minor in front then front else front + [v.minor]
  }

  /** The last release of maximal patch in a group. */
  function Latest(rs: seq<Release>, major: nat, minor: nat): Option<Release> {
    if rs == [] then None
    else
      var front, r := Latest(rs[..|rs| - 1], major, minor), rs[|rs| - 1];
      if InGroup(r, major, minor) && (front.None? || front.value.version.patch <= r.version.patch) then Some(r)
      else front
  }

  /** The selected releases of one major version, for the given minor versions. */
  function Block(rs: seq<Release>, major: nat, minors: seq<nat>): seq<Release> {
    if minors == [] then []
    else
      var front := Block(rs, major, minors[..|minors| - 1]);
      match Latest(rs, major, minors[|minors| - 1])
      case Some(r) => front + [r]
      case None => front
  }

  function Blocks(rs: seq<Release>, majors: seq<nat>): seq<Release> {
    if majors == [] then []
    else
      var major := majors[|majors| - 1];
      Blocks(rs, majors[..|majors| - 1]) + Block(rs, major, Minors(rs, major))
  }

  /** One release per minor version, grouped by major version. */
  function Select(rs: seq<Release>): seq<Release> {
    Blocks(rs, Majors(rs))
  }

  // ---------------------------------------------------------------- its parts

  ghost predicate Distinct(s: seq<nat>) {
    forall i, j :: 0 <= i < j < |s| ==> s[i] != s[j]
  }

  lemma {:induction false} MajorsMeaning(rs: seq<Release>)
    ensures Distinct(Majors(rs))
    ensures forall major :: major in Majors(rs) <==> exists k :: 0 <= k < |rs| && rs[k].version.major == major
  {
    if rs == [] {
    } else {
      var n := |rs| - 1;
      MajorsMeaning(rs[..n]);
      forall major
        ensures major in Majors(rs) <==> exists k :: 0 <= k < |rs| && rs[k].version.major == major
      {
        if k :| 0 <= k < |rs| && rs[k].version.major == major {
          if k < n { assert rs[..n][k].version.major == major; }
        }
        if major in Majors(rs[..n]) {
          var k :| 0 <= k < n && rs[..n][k].version.major == major;
          assert rs[k].version.major == major;
        }
        assert rs[n].version.major in Majors(rs);
      }
    }
  }

  ghost predicate Occurs(rs: seq<Release>, k: int, major: nat, minor: nat) {
    0 <= k < |rs| && InGroup(rs[k], major, minor)
  }

  lemma {:induction false} MinorsMeaning(rs: seq<Release>, major: nat)
    ensures Distinct(Minors(rs, major))
    ensures forall minor: nat :: minor in Minors(rs, major) <==> exists k :: Occurs(rs, k, major, minor)
  {
    if rs == [] {
    } else {
      var n := |rs| - 1;
      MinorsMeaning(rs[..n], major);
      forall minor: nat
        ensures minor in Minors(rs, major) <==> exists k :: Occurs(rs, k, major, minor)
      {
        if k :| Occurs(rs, k, major, minor) {
          if k < n { assert Occurs(rs[..n], k, major, minor); }
        }
        if minor in Minors(rs[..n], major) {
          var k :| Occurs(rs[..n], k, major, minor);
          assert Occurs(rs, k, major, minor);
        }
        if InGroup(rs[n], major, minor) { assert Occurs(rs, n, major, minor); }
      }
    }
  }

  /** Position `k` holds the last release of maximal patch in its group. */
  ghost predicate LastMaximal(rs: seq<Release>, k: int, major: nat, minor: nat) {
    && Occurs(rs, k, major, minor)
    && (forall j :: Occurs(rs, j, major, minor) ==> rs[j].version.patch <= rs[k].version.patch)
    && (forall j :: Occurs(rs, j, major, minor) && k < j ==> rs[j].version.patch < rs[k].version.patch)
  }

  lemma OccursOneMore(rs: seq<Release>, r: Release, k: int, major: nat, minor: nat)
    ensures Occurs(rs + [r], k, major, minor) <==>
              Occurs(rs, k, major, minor) || (k == |rs| && InGroup(r, major, minor))
  {
  }

  /** With one more release of the group the last maximal one moves to it exactly if its patch is not lower. */
  lemma MaximalOneMore(rs: seq<Release>, r: Release, k: int, major: nat, minor: nat)
    requires LastMaximal(rs, k, major, minor)
    ensures var moves := InGroup(r, major, minor) && rs[k].version.patch <= r.version.patch;
            LastMaximal(rs + [r], if moves then |rs| else k, major, minor)
  {
    forall j ensures Occurs(rs + [r], j, major, minor) <==>
                       Occurs(rs, j, major, minor) || (j == |rs| && InGroup(r, major, minor))
    {
      OccursOneMore(rs, r, j, major, minor);
    }
  }

  lemma FirstIsMaximal(rs: seq<Release>, r: Release, major: nat, minor: nat)
    requires InGroup(r, major, minor) && forall k :: !Occurs(rs, k, major, minor)
    ensures LastMaximal(rs + [r], |rs|, major, minor)
  {
    forall j ensures Occurs(rs + [r], j, major, minor) <==> j == |rs| {
      OccursOneMore(rs, r, j, major, minor);
    }
  }

  lemma {:induction false} LatestMeaning(rs: seq<Release>, major: nat, minor: nat)
    ensures Latest(rs, major, minor).None? <==> forall k :: !Occurs(rs, k, major, minor)
    ensures Latest(rs, major, minor).Some? ==>
              exists k :: LastMaximal(rs, k, major, minor) && rs[k] == Latest(rs, major, minor).value
  {
    if rs == [] {
    } else {
      var n := |rs| - 1;
      var front := rs[..n];
      LatestMeaning(front, major, minor);
      assert rs == front + [rs[n]];
      if Latest(front, major, minor).Some? {
        var k :| LastMaximal(front, k, major, minor) && front[k] == Latest(front, major, minor).value;
        MaximalOneMore(front, rs[n], k, major, minor);
      } else if InGroup(rs[n], major, minor) {
        FirstIsMaximal(front, rs[n], major, minor);
      } else {
        forall k ensures !Occurs(rs, k, major, minor) { OccursOneMore(front, rs[n], k, major, minor); }
      }
    }
  }

  lemma MinorHasLatest(rs: seq<Release>, major: nat, minor: nat)
    requires minor in Minors(rs, major)
    ensures Latest(rs, major, minor).Some? && InGroup(Latest(rs, major, minor).value, major, minor)
  {
    MinorsMeaning(rs, major);
    LatestMeaning(rs, major, minor);
  }

  lemma BlocksOneMore(rs: seq<Release>, majors: seq<nat>, i: nat)
    requires i < |majors|
    ensures Blocks(rs, majors[..i + 1]) == Blocks(rs, majors[..i]) + Block(rs, majors[i], Minors(rs, majors[i]))
  {
    assert majors[..i + 1][..i] == majors[..i];
  }

  lemma BlockOneMore(rs: seq<Release>, major: nat, minors: seq<nat>, j: nat, r: Release)
    requires j < |minors| && Latest(rs, major, minors[j]) == Some(r)
    ensures Block(rs, major, minors[..j + 1]) == Block(rs, major, minors[..j]) + [r]
  {
    assert minors[..j + 1][..j] == minors[..j];
  }

  /** A block is the newest release of each minor version, in the order of the minors. */
  lemma {:induction false} BlockMeaning(rs: seq<Release>, major: nat, minors: seq<nat>)
    requires forall minor :: minor in minors ==> minor in Minors(rs, major)
    ensures |Block(rs, major, minors)| == |minors|
    ensures forall i :: 0 <= i < |minors| ==>
              && Latest(rs, major, minors[i]) == Some(Block(rs, major, minors)[i])
              && InGroup(Block(rs, major, minors)[i], major, minors[i])
  {
    if minors == [] {
    } else {
      var n := |minors| - 1;
      BlockMeaning(rs, major, minors[..n]);
      assert minors[n] in minors && minors[..n + 1] == minors;
      MinorHasLatest(rs, major, minors[n]);
      BlockOneMore(rs, major, minors, n, Latest(rs, major, minors[n]).value);
    }
  }

  // ---------------------------------------------------------------- what the selection is

  /** Position `k` is the first one with the major version. */
  ghost predicate FirstMajor(rs: seq<Release>, k: int, major: nat) {
    && 0 <= k < |rs| && rs[k].version.major == major
    && forall j :: 0 <= j < k ==> rs[j].version.major != major
  }

  /** Position `k` is the first one of the group. */
  ghost predicate FirstOfGroup(rs: seq<Release>, k: int, major: nat, minor: nat) {
    Occurs(rs, k, major, minor) && forall j :: Occurs(rs, j, major, minor) ==> k <= j
  }

  /** First-seen order: by the first release of the major version, and within one by the first of the group. */
  ghost predicate Before(rs: seq<Release>, a: Release, b: Release) {
    if a.version.major == b.version.major then
      exists p, q :: p < q && FirstOfGroup(rs, p, a.version.major, a.version.minor)
                     && FirstOfGroup(rs, q, b.version.major, b.version.minor)
    else
      exists p, q :: p < q && FirstMajor(rs, p, a.version.major) && FirstMajor(rs, q, b.version.major)
  }

  lemma {:induction false} MajorHasFirst(rs: seq<Release>, major: nat) returns (p: int)
    requires major in Majors(rs)
    ensures FirstMajor(rs, p, major)
  {
    var n := |rs| - 1;
    if major in Majors(rs[..n]) {
      p := MajorHasFirst(rs[..n], major);
    } else {
      p := n;
      MajorsMeaning(rs[..n]);
      forall j | 0 <= j < n ensures rs[j].version.major != major {
        assert rs[..n][j].version.major in Majors(rs[..n]);
      }
    }
  }

  lemma GroupFirstStays(rs: seq<Release>, p: int, major: nat, minor: nat)
    requires rs != [] && FirstOfGroup(rs[..|rs| - 1], p, major, minor)
    ensures FirstOfGroup(rs, p, major, minor)
  {
    var n := |rs| - 1;
    var front := rs[..n];
    assert Occurs(rs, p, major, minor);
    assert forall j :: Occurs(rs, j, major, minor) && j < n ==> Occurs(front, j, major, minor);
  }

  lemma {:induction false} MinorHasFirst(rs: seq<Release>, major: nat, minor: nat) returns (p: int)
    requires minor in Minors(rs, major)
    ensures FirstOfGroup(rs, p, major, minor)
  {
    var n := |rs| - 1;
    if minor in Minors(rs[..n], major) {
      p := MinorHasFirst(rs[..n], major, minor);
      GroupFirstStays(rs, p, major, minor);
    } else {
      p := n;
      var front := rs[..n];
      MinorsMeaning(front, major);
      assert forall j :: Occurs(rs, j, major, minor) && j < n ==> Occurs(front, j, major, minor);
    }
  }

  /** Major versions come in the order of their first releases. */
  lemma {:induction false} MajorsInOrder(rs: seq<Release>, i: nat, j: nat) returns (p: int, q: int)
    requires i < j < |Majors(rs)|
    ensures p < q && FirstMajor(rs, p, Majors(rs)[i]) && FirstMajor(rs, q, Majors(rs)[j])
  {
    var n := |rs| - 1;
    var front := Majors(rs[..n]);
    if j < |front| {
      p, q := MajorsInOrder(rs[..n], i, j);
    } else {
      p := MajorHasFirst(rs[..n], front[i]);
      q := n;
      MajorsMeaning(rs[..n]);
      forall k | 0 <= k < n ensures rs[k].version.major != Majors(rs)[j] {
        assert rs[..n][k].version.major in front;
      }
    }
  }

  /** Minor versions of a major version come in the order of their first releases. */
  lemma {:induction false} MinorsInOrder(rs: seq<Release>, major: nat, i: nat, j: nat) returns (p: int, q: int)
    requires i < j < |Minors(rs, major)|
    ensures p < q
    ensures FirstOfGroup(rs, p, major, Minors(rs, major)[i]) && FirstOfGroup(rs, q, major, Minors(rs, major)[j])
  {
    var n := |rs| - 1;
    var front := Minors(rs[..n], major);
    if j < |front| {
      p, q := MinorsInOrder(rs[..n], major, i, j);
      GroupFirstStays(rs, p, major, front[i]);
      GroupFirstStays(rs, q, major, front[j]);
    } else {
      p := MinorHasFirst(rs[..n], major, front[i]);
      GroupFirstStays(rs, p, major, front[i]);
      q := MinorHasFirst(rs, major, Minors(rs, major)[j]);
      MinorsMeaning(rs[..n], major);
      assert q < n ==> Occurs(rs[..n], q, major, Minors(rs, major)[j]);
    }
  }

  /** Every release of the list is the newest of its group. */
  ghost predicate AllLatest(rs: seq<Release>, selected: seq<Release>) {
    forall r :: r in selected ==> Latest(rs, r.version.major, r.version.minor) == Some(r)
  }

  lemma BlockIsLatest(rs: seq<Release>, major: nat)
    ensures AllLatest(rs, Block(rs, major, Minors(rs, major)))
    ensures forall r :: r in Block(rs, major, Minors(rs, major)) ==> r.version.major == major
    ensures forall i, j :: 0 <= i < j < |Block(rs, major, Minors(rs, major))| ==>
              Before(rs, Block(rs, major, Minors(rs, major))[i], Block(rs, major, Minors(rs, major))[j])
  {
    var minors := Minors(rs, major);
    BlockMeaning(rs, major, minors);
    forall i, j | 0 <= i < j < |minors|
      ensures Before(rs, Block(rs, major, minors)[i], Block(rs, major, minors)[j])
    {
      var p, q := MinorsInOrder(rs, major, i, j);
    }
  }

  lemma {:induction false} EarlierMajorBefore(rs: seq<Release>, k: nat, a: Release, b: Release)
    requires k < |Majors(rs)| && a.version.major in Majors(rs)[..k] && b.version.major == Majors(rs)[k]
    ensures Before(rs, a, b)
  {
    var i :| 0 <= i < k && Majors(rs)[..k][i] == a.version.major;
    MajorsMeaning(rs);
    var p, q := MajorsInOrder(rs, i, k);
  }

  lemma {:induction false} BlocksMeaning(rs: seq<Release>, k: nat)
    requires k <= |Majors(rs)|
    ensures AllLatest(rs, Blocks(rs, Majors(rs)[..k]))
    ensures forall r :: r in Blocks(rs, Majors(rs)[..k]) ==> r.version.major in Majors(rs)[..k]
    ensures forall i, j :: 0 <= i < j < |Blocks(rs, Majors(rs)[..k])| ==>
              Before(rs, Blocks(rs, Majors(rs)[..k])[i], Blocks(rs, Majors(rs)[..k])[j])
  {
    if k == 0 {
    } else {
      var majors := Majors(rs);
      var major := majors[k - 1];
      assert majors[..k][..k - 1] == majors[..k - 1] && majors[..k][k - 1] == major;
      BlocksMeaning(rs, k - 1);
      BlockIsLatest(rs, major);
      MajorsMeaning(rs);
      var left, right := Blocks(rs, majors[..k - 1]), Block(rs, major, Minors(rs, major));
      forall i, j | 0 <= i < j < |left + right|
        ensures Before(rs, (left + right)[i], (left + right)[j])
      {
        if i < |left| && j >= |left| {
          assert left[i] in left && right[j - |left|] in right;
          EarlierMajorBefore(rs, k - 1, left[i], right[j - |left|]);
        }
      }
    }
  }

  ghost predicate HasGroup(rs: seq<Release>, major: nat, minor: nat) {
    exists k :: Occurs(rs, k, major, minor)
  }

  lemma HasGroupInConcat(a: seq<Release>, b: seq<Release>, major: nat, minor: nat)
    requires HasGroup(a, major, minor) || HasGroup(b, major, minor)
    ensures HasGroup(a + b, major, minor)
  {
    if k :| Occurs(a, k, major, minor) {
      assert Occurs(a + b, k, major, minor);
    } else {
      var k :| Occurs(b, k, major, minor);
      assert Occurs(a + b, |a| + k, major, minor);
    }
  }

  lemma BlockHasGroup(rs: seq<Release>, major: nat, minor: nat)
    requires minor in Minors(rs, major)
    ensures HasGroup(Block(rs, major, Minors(rs, major)), major, minor)
  {
    var i :| 0 <= i < |Minors(rs, major)| && Minors(rs, major)[i] == minor;
    BlockMeaning(rs, major, Minors(rs, major));
    assert Occurs(Block(rs, major, Minors(rs, major)), i, major, minor);
  }

  /** Every group that occurs is in the selection. */
  lemma {:induction false} GroupIsSelected(rs: seq<Release>, majors: seq<nat>, major: nat, minor: nat)
    requires major in majors && minor in Minors(rs, major)
    ensures HasGroup(Blocks(rs, majors), major, minor)
  {
    var n := |majors| - 1;
    var left, right := Blocks(rs, majors[..n]), Block(rs, majors[n], Minors(rs, majors[n]));
    if major == majors[n] {
      BlockHasGroup(rs, major, minor);
    } else {
      GroupIsSelected(rs, majors[..n], major, minor);
    }
    HasGroupInConcat(left, right, major, minor);
  }

  lemma SelectedIsLastMaximal(rs: seq<Release>, r: Release)
    requires r in Select(rs)
    ensures exists k :: LastMaximal(rs, k, r.version.major, r.version.minor) && rs[k] == r
  {
    var majors := Majors(rs);
    assert majors[..|majors|] == majors;
    BlocksMeaning(rs, |majors|);
    LatestMeaning(rs, r.version.major, r.version.minor);
  }

  lemma EveryGroupIsSelected(rs: seq<Release>, k: nat)
    requires k < |rs|
    ensures HasGroup(Select(rs), rs[k].version.major, rs[k].version.minor)
  {
    var v := rs[k].version;
    MajorsMeaning(rs);
    MinorsMeaning(rs, v.major);
    assert Occurs(rs, k, v.major, v.minor);
    GroupIsSelected(rs, Majors(rs), v.major, v.minor);
  }

  lemma SelectionIsOrdered(rs: seq<Release>, i: nat, j: nat)
    requires i < j < |Select(rs)|
    ensures Before(rs, Select(rs)[i], Select(rs)[j])
    ensures !SameGroup(Select(rs)[i], Select(rs)[j])
  {
    var majors := Majors(rs);
    assert majors[..|majors|] == majors;
    BlocksMeaning(rs, |majors|);
    var a, b := Select(rs)[i].version, Select(rs)[j].version;
    if a.major == b.major {
      var p, q :| p < q && FirstOfGroup(rs, p, a.major, a.minor) && FirstOfGroup(rs, q, b.major, b.minor);
    }
  }

  /**
    The selection holds only given releases, each the last one of maximal patch in its
    (major, minor) group; every group that occurs is in it once, in first-seen order of
    majors and then of minors. The placeholder of the dictionaries never shows up.
   */
  lemma SelectMeaning(rs: seq<Release>)
    ensures forall r :: r in Select(rs) ==>
              exists k :: LastMaximal(rs, k, r.version.major, r.version.minor) && rs[k] == r
    ensures forall k :: 0 <= k < |rs| ==> HasGroup(Select(rs), rs[k].version.major, rs[k].version.minor)
    ensures forall i, j :: 0 <= i < j < |Select(rs)| ==> Before(rs, Select(rs)[i], Select(rs)[j])
    ensures forall i, j :: 0 <= i < j < |Select(rs)| ==> !SameGroup(Select(rs)[i], Select(rs)[j])
  {
    forall r | r in Select(rs)
      ensures exists k :: LastMaximal(rs, k, r.version.major, r.version.minor) && rs[k] == r
    {
      SelectedIsLastMaximal(rs, r);
    }
    forall k | 0 <= k < |rs|
      ensures HasGroup(Select(rs), rs[k].version.major, rs[k].version.minor)
    {
      EveryGroupIsSelected(rs, k);
    }
    forall i, j | 0 <= i < j < |Select(rs)|
      ensures Before(rs, Select(rs)[i], Select(rs)[j])
      ensures !SameGroup(Select(rs)[i], Select(rs)[j])
    {
      SelectionIsOrdered(rs, i, j);
    }
  }

  // ---------------------------------------------------------------- the dictionaries

  /** A dictionary that remembers the order of insertion. */
  datatype Dict<V> = Dict(keys: seq<nat>, values: map<nat, V>)

  function Put<V>(d: Dict<V>, key: nat, value: V): Dict<V> {
    Dict(if key in d.values then d.keys else d.keys + [key], d.values[key := value])
  }

  ghost predicate MinorsTabulated(d: Dict<Release>, rs: seq<Release>, major: nat) {
    && d.keys == Minors(rs, major)
    && (forall minor: nat :: minor in d.values <==> minor in d.keys)
    && forall minor: nat :: minor in d.keys ==> Latest(rs, major, minor) == Some(d.values[minor])
  }

  ghost predicate Tabulated(d: Dict<Dict<Release>>, rs: seq<Release>) {
    && d.keys == Majors(rs)
    && (forall major: nat :: major in d.values <==> major in d.keys)
    && forall major: nat :: major in d.keys ==> MinorsTabulated(d.values[major], rs, major)
  }

  lemma MinorsOneMore(d: Dict<Release>, rs: seq<Release>, r: Release)
    requires MinorsTabulated(d, rs, r.version.major)
    ensures var known := r.version.minor in d.values;
            var latest := if known then d.values[r.version.minor] else PLACEHOLDER;
            MinorsTabulated(
              if latest.version.patch <= r.version.patch then Put(d, r.version.minor, r) else d,
              rs + [r], r.version.major)
  {
    var major := r.version.major;
    assert (rs + [r])[..|rs|] == rs;
    LatestMeaning(rs, major, r.version.minor);
    MinorsMeaning(rs, major);
    assert r.version.minor !in d.values ==> Latest(rs, major, r.version.minor) == None;
  }

  lemma OtherMajorOneMore(d: Dict<Release>, rs: seq<Release>, r: Release, major: nat)
    requires MinorsTabulated(d, rs, major) && r.version.major != major
    ensures MinorsTabulated(d, rs + [r], major)
  {
    assert (rs + [r])[..|rs|] == rs;
  }

  lemma NoMinorsYet(rs: seq<Release>, major: nat)
    requires major !in Majors(rs)
    ensures MinorsTabulated(Dict([], map[]), rs, major)
  {
    MajorsMeaning(rs);
    MinorsMeaning(rs, major);
    assert |Minors(rs, major)| == 0;
  }

  lemma TableOneMore(d: Dict<Dict<Release>>, rs: seq<Release>, r: Release, minors: Dict<Release>)
    requires Tabulated(d, rs) && MinorsTabulated(minors, rs + [r], r.version.major)
    ensures Tabulated(Put(d, r.version.major, minors), rs + [r])
  {
    assert (rs + [r])[..|rs|] == rs;
    forall major | major in d.keys && major != r.version.major
      ensures MinorsTabulated(d.values[major], rs + [r], major)
    {
      OtherMajorOneMore(d.values[major], rs, r, major);
    }
  }

  function Texts(rs: seq<Release>): seq<string> {
    seq(|rs|, i requires 0 <= i < |rs| => rs[i].version.text)
  }

  lemma TextsConcat(a: seq<Release>, b: seq<Release>)
    ensures Texts(a + b) == Texts(a) + Texts(b)
  {
  }

  method ReadMinors(minors: Dict<Release>, ghost rs: seq<Release>, ghost major: nat) returns (texts: seq<string>)
    requires MinorsTabulated(minors, rs, major)
    ensures texts == Texts(Block(rs, major, Minors(rs, major)))
  {
    texts := [];
    for j := 0 to |minors.keys|
      invariant texts == Texts(Block(rs, major, minors.keys[..j]))
    {
      var latest := minors.values[minors.keys[j]];
      BlockOneMore(rs, major, minors.keys, j, latest);
      texts := texts + [latest.version.text];
    }
    assert minors.keys[..|minors.keys|] == minors.keys;
  }

  method ReadOut(table: Dict<Dict<Release>>, ghost rs: seq<Release>) returns (texts: seq<string>)
    requires Tabulated(table, rs)
    ensures texts == Texts(Select(rs))
  {
    texts := [];
    for i := 0 to |table.keys|
      invariant texts == Texts(Blocks(rs, table.keys[..i]))
    {
      var more := ReadMinors(table.values[table.keys[i]], rs, table.keys[i]);
      BlocksOneMore(rs, table.keys, i);
      TextsConcat(Blocks(rs, table.keys[..i]), Block(rs, table.keys[i], Minors(rs, table.keys[i])));
      texts := texts + more;
    }
    assert table.keys[..|table.keys|] == table.keys;
  }

  /** Fills the nested dictionaries in one loop over the releases and reads them out in two nested ones. */
  method GetLatestPatchReleases(releases: seq<Release>) returns (latestPatchReleases: seq<string>)
    ensures latestPatchReleases == Texts(Select(releases))
    ensures |latestPatchReleases| == |Select(releases)|
    ensures forall i :: 0 <= i < |latestPatchReleases| ==>
              latestPatchReleases[i] == Select(releases)[i].version.text
  {
    var table: Dict<Dict<Release>> := Dict([], map[]);
    for i := 0 to |releases|
      invariant Tabulated(table, releases[..i])
    {
      var release := releases[i];
      ghost var seen := releases[..i];
      assert releases[..i + 1] == seen + [release];
      var version := release.version;
      var minors := if version.major in table.values then table.values[version.major] else Dict([], map[]);
      if version.major !in table.values { NoMinorsYet(seen, version.major); }
      MinorsOneMore(minors, seen, release);
      var latest := if version.minor in minors.values then minors.values[version.minor] else PLACEHOLDER;
      if latest.version.patch <= version.patch {
        minors := Put(minors, version.minor, release);
      }
      TableOneMore(table, seen, release, minors);
      table := Put(table, version.major, minors);
    }
    assert releases[..|releases|] == releases;
    latestPatchReleases := ReadOut(table, releases);
  }

  // ---------------------------------------------------------------- selecting twice

  lemma BlockIsNotEmpty(rs: seq<Release>, major: nat)
    requires major in Majors(rs)
    ensures Block(rs, major, Minors(rs, major)) != []
  {
    MajorsMeaning(rs);
    var k :| 0 <= k < |rs| && rs[k].version.major == major;
    MinorsMeaning(rs, major);
    assert Occurs(rs, k, major, rs[k].version.minor);
    BlockMeaning(rs, major, Minors(rs, major));
  }

  lemma DistinctSnoc(s: seq<nat>, i: nat)
    requires Distinct(s) && i < |s|
    ensures s[i] !in s[..i] && s[..i + 1] == s[..i] + [s[i]]
  {
  }

  lemma {:induction false} MajorsOfConcat(left: seq<Release>, right: seq<Release>, major: nat)
    requires right != [] && major !in Majors(left) && forall r :: r in right ==> r.version.major == major
    ensures Majors(left + right) == Majors(left) + [major]
  {
    var n := |right| - 1;
    assert (left + right)[..|left + right| - 1] == left + right[..n];
    assert right[n] in right;
    if n == 0 {
      assert left + right[..0] == left;
    } else {
      MajorsOfConcat(left, right[..n], major);
    }
  }

  lemma {:induction false} MajorsOfBlocks(rs: seq<Release>, k: nat)
    requires k <= |Majors(rs)|
    ensures Majors(Blocks(rs, Majors(rs)[..k])) == Majors(rs)[..k]
  {
    if k == 0 {
    } else {
      var i, majors := k - 1, Majors(rs);
      MajorsOfBlocks(rs, i);
      MajorsMeaning(rs);
      DistinctSnoc(majors, i);
      BlocksOneMore(rs, majors, i);
      BlockIsNotEmpty(rs, majors[i]);
      BlockIsLatest(rs, majors[i]);
      MajorsOfConcat(Blocks(rs, majors[..i]), Block(rs, majors[i], Minors(rs, majors[i])), majors[i]);
    }
  }

  /** Appending releases of another major version changes nothing within a major version. */
  lemma {:induction false} OtherMajorAppended(left: seq<Release>, right: seq<Release>, major: nat)
    requires forall r :: r in right ==> r.version.major != major
    ensures Minors(left + right, major) == Minors(left, major)
    ensures forall minor: nat :: Latest(left + right, major, minor) == Latest(left, major, minor)
  {
    if right == [] {
      assert left + right == left;
    } else {
      var n := |right| - 1;
      assert (left + right)[..|left + right| - 1] == left + right[..n];
      assert right[n] in right;
      OtherMajorAppended(left, right[..n], major);
    }
  }

  lemma {:induction false} OtherMajorPrepended(left: seq<Release>, right: seq<Release>, major: nat)
    requires forall r :: r in left ==> r.version.major != major
    ensures Minors(left + right, major) == Minors(right, major)
    ensures forall minor: nat :: Latest(left + right, major, minor) == Latest(right, major, minor)
  {
    if right == [] {
      assert left + right == [] + left;
      OtherMajorAppended([], left, major);
    } else {
      var n := |right| - 1;
      assert (left + right)[..|left + right| - 1] == left + right[..n];
      OtherMajorPrepended(left, right[..n], major);
    }
  }

  /** A list with one release per given minor version has those minors, each its own newest. */
  lemma {:induction false} OnePerMinor(block: seq<Release>, major: nat, minors: seq<nat>)
    requires Distinct(minors) && |block| == |minors|
    requires forall i :: 0 <= i < |minors| ==> InGroup(block[i], major, minors[i])
    ensures Minors(block, major) == minors
    ensures forall i :: 0 <= i < |minors| ==> Latest(block, major, minors[i]) == Some(block[i])
  {
    if block == [] {
    } else {
      var n := |block| - 1;
      OnePerMinor(block[..n], major, minors[..n]);
      assert minors == minors[..n] + [minors[n]];
      assert minors[n] !in minors[..n];
      LatestMeaning(block[..n], major, minors[n]);
      MinorsMeaning(block[..n], major);
    }
  }

  lemma BlockKeepsMajor(rs: seq<Release>, major: nat)
    ensures Minors(Block(rs, major, Minors(rs, major)), major) == Minors(rs, major)
    ensures forall minor :: minor in Minors(rs, major) ==>
              Latest(Block(rs, major, Minors(rs, major)), major, minor) == Latest(rs, major, minor)
  {
    BlockMeaning(rs, major, Minors(rs, major));
    MinorsMeaning(rs, major);
    OnePerMinor(Block(rs, major, Minors(rs, major)), major, Minors(rs, major));
  }

  /** Within one major version, the selection has the same minors and newest releases as the list. */
  lemma {:induction false} BlocksKeepMajor(rs: seq<Release>, k: nat, major: nat)
    requires k <= |Majors(rs)| && major in Majors(rs)[..k]
    ensures Minors(Blocks(rs, Majors(rs)[..k]), major) == Minors(rs, major)
    ensures forall minor :: minor in Minors(rs, major) ==>
              Latest(Blocks(rs, Majors(rs)[..k]), major, minor) == Latest(rs, major, minor)
  {
    var i, majors := k - 1, Majors(rs);
    MajorsMeaning(rs);
    DistinctSnoc(majors, i);
    BlocksOneMore(rs, majors, i);
    var left, right := Blocks(rs, majors[..i]), Block(rs, majors[i], Minors(rs, majors[i]));
    if majors[i] == major {
      BlocksMeaning(rs, i);
      OtherMajorPrepended(left, right, major);
      BlockKeepsMajor(rs, major);
    } else {
      BlocksKeepMajor(rs, i, major);
      BlockIsLatest(rs, majors[i]);
      OtherMajorAppended(left, right, major);
    }
  }

  lemma {:induction false} SameBlock(a: seq<Release>, b: seq<Release>, major: nat, minors: seq<nat>)
    requires forall minor :: minor in minors ==> Latest(a, major, minor) == Latest(b, major, minor)
    ensures Block(a, major, minors) == Block(b, major, minors)
  {
    if minors == [] {
    } else {
      SameBlock(a, b, major, minors[..|minors| - 1]);
      assert minors[|minors| - 1] in minors;
    }
  }

  lemma {:induction false} SameBlocks(a: seq<Release>, b: seq<Release>, majors: seq<nat>)
    requires forall major :: major in majors ==>
               && Minors(a, major) == Minors(b, major)
               && forall minor :: minor in Minors(a, major) ==> Latest(a, major, minor) == Latest(b, major, minor)
    ensures Blocks(a, majors) == Blocks(b, majors)
  {
    if majors == [] {
    } else {
      var n := |majors| - 1;
      SameBlocks(a, b, majors[..n]);
      assert majors[n] in majors;
      SameBlock(a, b, majors[n], Minors(a, majors[n]));
    }
  }

  /** Selecting from a selection changes nothing. */
  lemma SelectIsIdempotent(rs: seq<Release>)
    ensures Select(Select(rs)) == Select(rs)
  {
    var majors := Majors(rs);
    assert majors[..|majors|] == majors;
    MajorsOfBlocks(rs, |majors|);
    forall major | major in majors
      ensures Minors(Select(rs), major) == Minors(rs, major)
      ensures forall minor :: minor in Minors(rs, major) ==>
                Latest(Select(rs), major, minor) == Latest(rs, major, minor)
    {
      BlocksKeepMajor(rs, |majors|, major);
    }
    SameBlocks(Select(rs), rs, majors);
  }

  // ---------------------------------------------------------------- filters

  datatype ReleaseFilter = MajorVersionFilter(versions: set<nat>) | StableReleaseFilter

  predicate Passes(f: ReleaseFilter, r: Release) {
    match f
    case MajorVersionFilter(versions) => r.version.major in versions
    case StableReleaseFilter => r.version.stable
  }

  predicate PassesAll(filters: seq<ReleaseFilter>, r: Release) {
    forall i :: 0 <= i < |filters| ==> Passes(filters[i], r)
  }

  /** The releases that pass, in their order. */
  function Keep(rs: seq<Release>, passes: Release -> bool): seq<Release> {
    if rs == [] then []
    else
      var front, r := Keep(rs[..|rs| - 1], passes), rs[|rs| - 1];
      if passes(r) then front + [r] else front
  }

  lemma {:induction false} KeptMeaning(rs: seq<Release>, passes: Release -> bool, r: Release)
    ensures r in Keep(rs, passes) <==> r in rs && passes(r)
  {
    if rs == [] {
    } else {
      var n := |rs| - 1;
      KeptMeaning(rs[..n], passes, r);
      assert rs == rs[..n] + [rs[n]];
    }
  }

  /** What passes all filters: stable releases if that is asked, of all the sets of major versions asked for. */
  lemma PassingMeaning(filters: seq<ReleaseFilter>, r: Release)
    ensures PassesAll(filters, r) <==>
              && (StableReleaseFilter in filters ==> r.version.stable)
              && forall versions :: MajorVersionFilter(versions) in filters ==> r.version.major in versions
  {
    if (StableReleaseFilter in filters ==> r.version.stable)
       && forall versions :: MajorVersionFilter(versions) in filters ==> r.version.major in versions
    {
      forall i | 0 <= i < |filters| ensures Passes(filters[i], r) {
        assert filters[i] in filters;
      }
    }
  }

  /** The filter loop of the parsers. */
  method FilterReleases(all: seq<Release>, filters: seq<ReleaseFilter>) returns (filtered: seq<Release>)
    ensures filtered == Keep(all, r => PassesAll(filters, r))
    ensures forall r :: r in filtered <==>
              && r in all
              && (StableReleaseFilter in filters ==> r.version.stable)
              && forall versions :: MajorVersionFilter(versions) in filters ==> r.version.major in versions
  {
    filtered := [];
    for i := 0 to |all|
      invariant filtered == Keep(all[..i], r => PassesAll(filters, r))
    {
      var shouldAdd := true;
      var j := 0;
      while j < |filters|
        invariant 0 <= j <= |filters|
        invariant shouldAdd
        invariant forall k :: 0 <= k < j ==> Passes(filters[k], all[i])
      {
        if !Passes(filters[j], all[i]) {
          shouldAdd := false;
          break;
        }
        j := j + 1;
      }
      assert shouldAdd <==> PassesAll(filters, all[i]);
      assert all[..i + 1][..i] == all[..i];
      if shouldAdd {
        filtered := filtered + [all[i]];
      }
    }
    assert all[..|all|] == all;
    forall r
      ensures r in filtered <==>
                && r in all
                && (StableReleaseFilter in filters ==> r.version.stable)
                && forall versions :: MajorVersionFilter(versions) in filters ==> r.version.major in versions
    {
      KeptMeaning(all, r => PassesAll(filters, r), r);
      PassingMeaning(filters, r);
    }
  }

  function OfMajor(versions: set<nat>): Release -> bool {
    r => Passes(MajorVersionFilter(versions), r)
  }

  function KeepMajors(majors: seq<nat>, versions: set<nat>): seq<nat> {
    if majors == [] then []
    else
      var front, major := KeepMajors(majors[..|majors| - 1], versions), majors[|majors| - 1];
      if major in versions then front + [major] else front
  }

  lemma {:induction false} KeepMajorsMeaning(majors: seq<nat>, versions: set<nat>)
    ensures forall major :: major in KeepMajors(majors, versions) <==> major in majors && major in versions
  {
    if majors == [] {
    } else {
      var n := |majors| - 1;
      KeepMajorsMeaning(majors[..n], versions);
      assert majors == majors[..n] + [majors[n]];
    }
  }

  lemma {:induction false} MajorsOfKept(rs: seq<Release>, versions: set<nat>)
    ensures Majors(Keep(rs, OfMajor(versions))) == KeepMajors(Majors(rs), versions)
  {
    if rs == [] {
    } else {
      var n := |rs| - 1;
      var front, major := rs[..n], rs[n].version.major;
      MajorsOfKept(front, versions);
      KeepMajorsMeaning(Majors(front), versions);
      var kept := Keep(front, OfMajor(versions));
      assert (kept + [rs[n]])[..|kept|] == kept;
      assert (Majors(front) + [major])[..|Majors(front)|] == Majors(front);
    }
  }

  lemma {:induction false} KeptMajorIsWhole(rs: seq<Release>, versions: set<nat>, major: nat)
    requires major in versions
    ensures Minors(Keep(rs, OfMajor(versions)), major) == Minors(rs, major)
    ensures forall minor: nat :: Latest(Keep(rs, OfMajor(versions)), major, minor) == Latest(rs, major, minor)
  {
    if rs == [] {
    } else {
      var n := |rs| - 1;
      KeptMajorIsWhole(rs[..n], versions, major);
      var kept := Keep(rs[..n], OfMajor(versions));
      assert (kept + [rs[n]])[..|kept|] == kept;
    }
  }

  lemma {:induction false} KeepConcat(left: seq<Release>, right: seq<Release>, passes: Release -> bool)
    ensures Keep(left + right, passes) == Keep(left, passes) + Keep(right, passes)
  {
    if right == [] {
      assert left + right == left;
    } else {
      var n := |right| - 1;
      assert (left + right)[..|left + right| - 1] == left + right[..n];
      KeepConcat(left, right[..n], passes);
    }
  }

  lemma {:induction false} KeepAllOrNothing(rs: seq<Release>, passes: Release -> bool, all: bool)
    requires forall r :: r in rs ==> passes(r) == all
    ensures Keep(rs, passes) == if all then rs else []
  {
    if rs == [] {
    } else {
      var n := |rs| - 1;
      KeepAllOrNothing(rs[..n], passes, all);
      assert rs[n] in rs && rs == rs[..n] + [rs[n]];
    }
  }

  lemma {:induction false} KeepBlocks(rs: seq<Release>, majors: seq<nat>, versions: set<nat>)
    ensures Keep(Blocks(rs, majors), OfMajor(versions)) == Blocks(rs, KeepMajors(majors, versions))
  {
    if majors == [] {
    } else {
      var n := |majors| - 1;
      var major := majors[n];
      KeepBlocks(rs, majors[..n], versions);
      var block := Block(rs, major, Minors(rs, major));
      KeepConcat(Blocks(rs, majors[..n]), block, OfMajor(versions));
      BlockIsLatest(rs, major);
      KeepAllOrNothing(block, OfMajor(versions), major in versions);
      var kept := KeepMajors(majors[..n], versions);
      assert (kept + [major])[..|kept|] == kept;
    }
  }

  /** Filtering by major version first or selecting first is the same, for every list and every set of majors. */
  lemma FilterAndSelectCommute(rs: seq<Release>, versions: set<nat>)
    ensures Select(Keep(rs, OfMajor(versions))) == Keep(Select(rs), OfMajor(versions))
  {
    var kept := KeepMajors(Majors(rs), versions);
    MajorsOfKept(rs, versions);
    KeepMajorsMeaning(Majors(rs), versions);
    forall major | major in kept
      ensures Minors(Keep(rs, OfMajor(versions)), major) == Minors(rs, major)
      ensures forall minor: nat :: Latest(Keep(rs, OfMajor(versions)), major, minor) == Latest(rs, major, minor)
    {
      KeptMajorIsWhole(rs, versions, major);
    }
    SameBlocks(Keep(rs, OfMajor(versions)), rs, kept);
    KeepBlocks(rs, Majors(rs), versions);
  }
}
