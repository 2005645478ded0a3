/** The gym create and edit pages, as far as they concern the gym's feature
    set: the ticked catalogue features, then the comma-separated custom
    names, each reusing a catalogue feature of the same name (compared in
    lower case) or else creating a new feature. */
module GymController {
  import opened Common
  import opened Seqs
  import opened Entities
  import opened Store
  import opened Text

  /** The posted gym form: the scalar columns. */
  datatype GymForm = GymForm(id: int, name: string, address: string, monthlyPrice: int, annuallyPrice: int)

  datatype GymError =
    | NotFound       // route id and form id differ, or no such gym
    | InvalidModel   // the form failed validation: nothing is saved

  /** The gym's feature list under construction, and the features created
      for it so far (saved together with the gym). */
  datatype FeatureSet = FeatureSet(ids: seq<int>, created: seq<GymFeature>)

  const CustomSeparator: char := ','

  /** FirstOrDefault(f => f.Name.ToLower() == name.ToLower()) over the
      catalogue as stored: the first entry whose lowered name matches, or -1. */
  function MatchFeature(catalogue: seq<GymFeature>, name: string, lower: string -> string): (r: int)
    ensures -1 <= r < |catalogue|
    ensures r >= 0 ==> lower(catalogue[r].name) == lower(name)
    ensures r >= 0 ==> forall i :: 0 <= i < r ==> lower(catalogue[i].name) != lower(name)
    ensures r < 0 ==> forall i :: 0 <= i < |catalogue| ==> lower(catalogue[i].name) != lower(name)
  {
    if catalogue == [] then -1
    else if lower(catalogue[0].name) == lower(name) then 0
    else
      var r := MatchFeature(catalogue[1..], name, lower);
      if r < 0 then -1 else r + 1
  }

  function IdIn(ids: seq<int>): GymFeature -> bool
  {
    (f: GymFeature) => f.id in ids
  }

  /** The ticked features: Where(f => selectedFeatureIds.Contains(f.Id)) over
      the catalogue, in catalogue order; nothing when the list is null. */
  function SelectedIds(catalogue: seq<GymFeature>, selected: Option<seq<int>>): (r: seq<int>)
    ensures selected.None? ==> r == []
    ensures selected.Some? ==> forall id :: id in r <==>
      id in selected.value && exists i :: 0 <= i < |catalogue| && catalogue[i].id == id
  {
    if selected.None? then []
    else
      var chosen := Filter(catalogue, IdIn(selected.value));
      FilterMembers(catalogue, IdIn(selected.value));
      assert forall id :: id in FeatureIds(chosen) <==> exists f :: f in chosen && f.id == id;
      FeatureIds(chosen)
  }

  lemma SelectedFromCatalogue(catalogue: seq<GymFeature>, selected: Option<seq<int>>)
    ensures forall x :: x in SelectedIds(catalogue, selected) ==> x in FeatureIds(catalogue)
  {
  }

  /** One custom name. A catalogue match is appended (on Edit only when not
      already in the list); otherwise a new feature with the default icon is
      created, numbered after those created before it. */
  function CustomStep(catalogue: seq<GymFeature>, lower: string -> string, onlyIfAbsent: bool, nextId: int,
                      st: FeatureSet, name: string): (r: FeatureSet)
    ensures |st.ids| <= |r.ids| <= |st.ids| + 1 && r.ids[..|st.ids|] == st.ids
    ensures |st.created| <= |r.created| <= |st.created| + 1 && r.created[..|st.created|] == st.created
    ensures |r.created| > |st.created| ==> MatchFeature(catalogue, name, lower) < 0
  {
    var m := MatchFeature(catalogue, name, lower);
    if m >= 0 then
      if onlyIfAbsent && catalogue[m].id in st.ids then st
      else st.(ids := st.ids + [catalogue[m].id])
    else
      var f := GymFeature(nextId + |st.created|, name, DefaultIconClass);
      FeatureSet(st.ids + [f.id], st.created + [f])
  }

  /** The custom names processed in order, starting from st. */
  function CustomFeatures(catalogue: seq<GymFeature>, lower: string -> string, onlyIfAbsent: bool, nextId: int,
                          st: FeatureSet, names: seq<string>): (r: FeatureSet)
    ensures |st.ids| <= |r.ids| && r.ids[..|st.ids|] == st.ids
    ensures |st.created| <= |r.created| <= |st.created| + |names| && r.created[..|st.created|] == st.created
  {
    if names == [] then st
    else
      var prev := CustomFeatures(catalogue, lower, onlyIfAbsent, nextId, st, names[..|names| - 1]);
      var r := CustomStep(catalogue, lower, onlyIfAbsent, nextId, prev, names[|names| - 1]);
      assert r.ids[..|st.ids|] == r.ids[..|prev.ids|][..|st.ids|];
      assert r.created[..|st.created|] == r.created[..|prev.created|][..|st.created|];
      r
  }

  /** The custom names, or none when the text is null or white space. */
  function CustomNames(custom: Option<string>): (r: seq<string>)
    ensures IsNullOrWhiteSpace(custom) ==> r == []
    ensures forall x :: x in r ==> x != [] && IsTrimmed(x) && CustomSeparator !in x
  {
    if IsNullOrWhiteSpace(custom) then []
    else
      SplitTrimmedClean(custom.value, CustomSeparator);
      SplitTrimmed(custom.value, CustomSeparator)
  }

  /** The complete new feature set of a gym: the ticked features, then the
      custom names, starting from an empty list. */
  function BuildFeatureSet(catalogue: seq<GymFeature>, selected: Option<seq<int>>, custom: Option<string>,
                           lower: string -> string, onlyIfAbsent: bool, nextId: int): (r: FeatureSet)
    ensures var ticked := SelectedIds(catalogue, selected);
      |ticked| <= |r.ids| && r.ids[..|ticked|] == ticked
    ensures |r.created| <= |CustomNames(custom)|
  {
    CustomFeatures(catalogue, lower, onlyIfAbsent, nextId, FeatureSet(SelectedIds(catalogue, selected), []),
                   CustomNames(custom))
  }

  /** The first loop of Create/Edit (POST): the ticked catalogue features. */
  method TickedFeatures(catalogue: seq<GymFeature>, selected: Option<seq<int>>) returns (ids: seq<int>)
    ensures ids == SelectedIds(catalogue, selected)
  {
    ids := [];
    if selected.Some? {
      var chosen := Filter(catalogue, IdIn(selected.value));
      for i := 0 to |chosen|
        invariant |ids| == i
        invariant forall k :: 0 <= k < i ==> ids[k] == chosen[k].id
      {
        ids := ids + [chosen[i].id];
      }
      assert ids == FeatureIds(chosen);
    }
  }

  /** The body of the custom-name loop. */
  method AddCustomName(catalogue: seq<GymFeature>, lower: string -> string, onlyIfAbsent: bool, nextId: int,
                       st: FeatureSet, name: string)
    returns (fs: FeatureSet)
    ensures fs == CustomStep(catalogue, lower, onlyIfAbsent, nextId, st, name)
  {
    fs := st;
    var m := MatchFeature(catalogue, name, lower);
    if m >= 0 {
      if !onlyIfAbsent || catalogue[m].id !in fs.ids {
        fs := fs.(ids := fs.ids + [catalogue[m].id]);
      }
    } else {
      var f := GymFeature(nextId + |fs.created|, name, DefaultIconClass);
      fs := FeatureSet(fs.ids + [f.id], fs.created + [f]);
    }
  }

  /** Both loops of Create/Edit (POST) that fill gym.Features: the ticked
      features, then one step per custom name. */
  method CollectFeatures(catalogue: seq<GymFeature>, selected: Option<seq<int>>, custom: Option<string>,
                         lower: string -> string, onlyIfAbsent: bool, nextId: int)
    returns (fs: FeatureSet)
    ensures fs == BuildFeatureSet(catalogue, selected, custom, lower, onlyIfAbsent, nextId)
  {
    var ids := TickedFeatures(catalogue, selected);
    fs := FeatureSet(ids, []);
    ghost var start := fs;
    var names := CustomNames(custom);
    for i := 0 to |names|
      invariant fs == CustomFeatures(catalogue, lower, onlyIfAbsent, nextId, start, names[..i])
    {
      CustomFeaturesSnoc(catalogue, lower, onlyIfAbsent, nextId, start, names, i);
      fs := AddCustomName(catalogue, lower, onlyIfAbsent, nextId, fs, names[i]);
    }
    assert names[..|names|] == names;
  }

  /** Processing one more name is one more step. */
  lemma CustomFeaturesSnoc(catalogue: seq<GymFeature>, lower: string -> string, onlyIfAbsent: bool, nextId: int,
                           st: FeatureSet, names: seq<string>, i: nat)
    requires i < |names|
    ensures CustomFeatures(catalogue, lower, onlyIfAbsent, nextId, st, names[..i + 1])
         == CustomStep(catalogue, lower, onlyIfAbsent, nextId,
                       CustomFeatures(catalogue, lower, onlyIfAbsent, nextId, st, names[..i]), names[i])
  {
    assert names[..i + 1][..i] == names[..i];
  }

  /** A feature is created only for a custom name that matches no catalogue
      entry; it carries that name and the default icon. */
  lemma {:induction false} CustomFeaturesCreated(catalogue: seq<GymFeature>, lower: string -> string,
                                                 onlyIfAbsent: bool, nextId: int, st: FeatureSet, names: seq<string>)
    requires st.created == []
    ensures var r := CustomFeatures(catalogue, lower, onlyIfAbsent, nextId, st, names);
      && |r.created| <= |names|
      && forall f :: f in r.created ==>
           && f.iconClass == DefaultIconClass
           && f.name in names
           && MatchFeature(catalogue, f.name, lower) < 0
  {
    if names != [] {
      var init := names[..|names| - 1];
      CustomFeaturesCreated(catalogue, lower, onlyIfAbsent, nextId, st, init);
      assert forall n :: n in init ==> n in names;
    }
  }

  ghost predicate NumberedFrom(created: seq<GymFeature>, nextId: int)
  {
    forall j :: 0 <= j < |created| ==> created[j].id == nextId + j
  }

  /** Features are created with consecutive ids from nextId. */
  lemma {:induction false} CustomFeaturesNumbered(catalogue: seq<GymFeature>, lower: string -> string,
                                                  onlyIfAbsent: bool, nextId: int, st: FeatureSet, names: seq<string>)
    requires NumberedFrom(st.created, nextId)
    ensures NumberedFrom(CustomFeatures(catalogue, lower, onlyIfAbsent, nextId, st, names).created, nextId)
  {
    if names != [] {
      CustomFeaturesNumbered(catalogue, lower, onlyIfAbsent, nextId, st, names[..|names| - 1]);
    }
  }

  /** Where the ids of the list come from: the start list, the catalogue, or
      the features created along the way. */
  lemma {:induction false} CustomFeaturesIds(catalogue: seq<GymFeature>, lower: string -> string, onlyIfAbsent: bool,
                                             nextId: int, st: FeatureSet, names: seq<string>)
    ensures var r := CustomFeatures(catalogue, lower, onlyIfAbsent, nextId, st, names);
      forall x :: x in r.ids ==> x in st.ids || x in FeatureIds(catalogue) || x in FeatureIds(r.created)
  {
    if names != [] {
      var prev := CustomFeatures(catalogue, lower, onlyIfAbsent, nextId, st, names[..|names| - 1]);
      CustomFeaturesIds(catalogue, lower, onlyIfAbsent, nextId, st, names[..|names| - 1]);
      var r := CustomStep(catalogue, lower, onlyIfAbsent, nextId, prev, names[|names| - 1]);
      var m := MatchFeature(catalogue, names[|names| - 1], lower);
      if m >= 0 {
        assert r.created == prev.created;
        assert catalogue[m].id == FeatureIds(catalogue)[m];
      } else {
        var f := GymFeature(nextId + |prev.created|, names[|names| - 1], DefaultIconClass);
        assert r.created == prev.created + [f] && r.ids == prev.ids + [f.id];
        FeatureIdsAppend(prev.created, [f]);
        assert FeatureIds(r.created) == FeatureIds(prev.created) + [f.id];
      }
    }
  }

  /** name ends up in r: as the catalogue feature it matches, or as a
      feature created with exactly that name. */
  predicate Covers(catalogue: seq<GymFeature>, lower: string -> string, r: FeatureSet, name: string)
  {
    var m := MatchFeature(catalogue, name, lower);
    && (m >= 0 ==> catalogue[m].id in r.ids)
    && (m < 0 ==> exists f :: f in r.created && f.name == name && f.id in r.ids)
  }

  /** Every custom name ends up in the list. */
  lemma {:induction false} CustomFeaturesCover(catalogue: seq<GymFeature>, lower: string -> string,
                                               onlyIfAbsent: bool, nextId: int, st: FeatureSet,
                                               names: seq<string>, k: nat)
    requires k < |names|
    ensures Covers(catalogue, lower, CustomFeatures(catalogue, lower, onlyIfAbsent, nextId, st, names), names[k])
  {
    var init := names[..|names| - 1];
    var last := names[|names| - 1];
    var prev := CustomFeatures(catalogue, lower, onlyIfAbsent, nextId, st, init);
    if k < |names| - 1 {
      assert init[k] == names[k];
      CustomFeaturesCover(catalogue, lower, onlyIfAbsent, nextId, st, init, k);
      CoversExtends(catalogue, lower, prev, CustomStep(catalogue, lower, onlyIfAbsent, nextId, prev, last), names[k]);
    } else {
      StepCovers(catalogue, lower, onlyIfAbsent, nextId, prev, last);
    }
  }

  /** A step covers the name it processes. */
  lemma StepCovers(catalogue: seq<GymFeature>, lower: string -> string, onlyIfAbsent: bool, nextId: int,
                   st: FeatureSet, name: string)
    ensures Covers(catalogue, lower, CustomStep(catalogue, lower, onlyIfAbsent, nextId, st, name), name)
  {
    var r := CustomStep(catalogue, lower, onlyIfAbsent, nextId, st, name);
    if MatchFeature(catalogue, name, lower) < 0 {
      assert r.created[|r.created| - 1] in r.created;
    }
  }

  /** Whatever a list covers, any extension of it covers too. */
  lemma CoversExtends(catalogue: seq<GymFeature>, lower: string -> string, a: FeatureSet, b: FeatureSet,
                      name: string)
    requires Covers(catalogue, lower, a, name)
    requires |a.ids| <= |b.ids| && b.ids[..|a.ids|] == a.ids
    requires |a.created| <= |b.created| && b.created[..|a.created|] == a.created
    ensures Covers(catalogue, lower, b, name)
  {
    var m := MatchFeature(catalogue, name, lower);
    if m >= 0 {
      assert catalogue[m].id in b.ids[..|a.ids|];
    } else {
      var f :| f in a.created && f.name == name && f.id in a.ids;
      assert f in b.created[..|a.created|] && f.id in b.ids[..|a.ids|];
    }
  }

  /** On Edit the list never holds a feature twice, provided the catalogue
      ids are below the next id to hand out. */
  lemma {:induction false} EditNoDuplicates(catalogue: seq<GymFeature>, selected: Option<seq<int>>,
                                            custom: Option<string>, lower: string -> string, nextId: int)
    requires KeysBelow(catalogue, FeatureKey, nextId)
    ensures Distinct(BuildFeatureSet(catalogue, selected, custom, lower, true, nextId).ids)
  {
    var sel := SelectedIds(catalogue, selected);
    SelectedDistinct(catalogue, selected, nextId);
    NoDuplicatesFrom(catalogue, lower, nextId, FeatureSet(sel, []), CustomNames(custom));
  }

  lemma SelectedDistinct(catalogue: seq<GymFeature>, selected: Option<seq<int>>, nextId: int)
    requires KeysBelow(catalogue, FeatureKey, nextId)
    ensures var s := SelectedIds(catalogue, selected);
      Distinct(s) && forall x :: x in s ==> x < nextId
  {
    if selected.Some? {
      var chosen := Filter(catalogue, IdIn(selected.value));
      FilterSubsequence(catalogue, IdIn(selected.value), nextId);
      var s := FeatureIds(chosen);
      forall i, j | 0 <= i < j < |s| ensures s[i] != s[j] {
        assert FeatureKey(chosen[i]) != FeatureKey(chosen[j]);
      }
      forall x | x in s ensures x < nextId {
        var i :| 0 <= i < |s| && s[i] == x;
        assert FeatureKey(chosen[i]) < nextId;
      }
    }
  }

  /** Filtering a table keeps its ids distinct and below the next id. */
  lemma {:induction false} FilterSubsequence(s: seq<GymFeature>, p: GymFeature -> bool, nextId: int)
    requires KeysBelow(s, FeatureKey, nextId)
    ensures KeysBelow(Filter(s, p), FeatureKey, nextId)
  {
    if s != [] {
      var tail := s[1..];
      assert KeysBelow(tail, FeatureKey, nextId);
      FilterSubsequence(tail, p, nextId);
      var rest := Filter(tail, p);
      FilterMembers(tail, p);
      if p(s[0]) {
        forall x | x in rest ensures x.id != s[0].id {
          var i :| 0 <= i < |tail| && tail[i] == x;
          assert s[i + 1] == x;
        }
        FeatureConsKeys(s[0], rest, nextId);
      }
    }
  }

  lemma FeatureConsKeys(x: GymFeature, rest: seq<GymFeature>, nextId: int)
    requires KeysBelow(rest, FeatureKey, nextId) && x.id < nextId
    requires forall y :: y in rest ==> y.id != x.id
    ensures KeysBelow([x] + rest, FeatureKey, nextId)
  {
    var r := [x] + rest;
    forall i, j | 0 <= i < j < |r| ensures FeatureKey(r[i]) != FeatureKey(r[j]) {
      assert r[j] == rest[j - 1];
      if i > 0 {
        assert r[i] == rest[i - 1];
      }
    }
  }

  predicate Distinct(ids: seq<int>)
  {
    forall i, j :: 0 <= i < j < |ids| ==> ids[i] != ids[j]
  }

  /** One Edit step keeps the list free of repeats and below the next
      number to hand out. */
  lemma NoDuplicatesStep(catalogue: seq<GymFeature>, lower: string -> string, nextId: int,
                         st: FeatureSet, name: string)
    requires KeysBelow(catalogue, FeatureKey, nextId)
    requires Distinct(st.ids) && forall x :: x in st.ids ==> x < nextId + |st.created|
    ensures var r := CustomStep(catalogue, lower, true, nextId, st, name);
      && Distinct(r.ids) && (forall x :: x in r.ids ==> x < nextId + |r.created|)
      && |st.created| <= |r.created| <= |st.created| + 1
  {
    var m := MatchFeature(catalogue, name, lower);
    if m >= 0 {
      if catalogue[m].id !in st.ids {
        assert FeatureKey(catalogue[m]) < nextId;
        DistinctAppend(st.ids, catalogue[m].id);
      }
    } else {
      DistinctAppend(st.ids, nextId + |st.created|);
    }
  }

  lemma DistinctAppend(ids: seq<int>, x: int)
    requires Distinct(ids) && x !in ids
    ensures Distinct(ids + [x])
  {
    var r := ids + [x];
    forall i, j | 0 <= i < j < |r| ensures r[i] != r[j] {
      assert r[i] == ids[i];
    }
  }

  lemma {:induction false} NoDuplicatesFrom(catalogue: seq<GymFeature>, lower: string -> string, nextId: int,
                                            st: FeatureSet, names: seq<string>)
    requires KeysBelow(catalogue, FeatureKey, nextId)
    requires Distinct(st.ids) && forall x :: x in st.ids ==> x < nextId + |st.created|
    ensures var r := CustomFeatures(catalogue, lower, true, nextId, st, names);
      Distinct(r.ids) && forall x :: x in r.ids ==> x < nextId + |r.created|
  {
    if names != [] {
      var prev := CustomFeatures(catalogue, lower, true, nextId, st, names[..|names| - 1]);
      NoDuplicatesFrom(catalogue, lower, nextId, st, names[..|names| - 1]);
      NoDuplicatesStep(catalogue, lower, nextId, prev, names[|names| - 1]);
    }
  }

  /** One custom name that is trimmed, not blank and free of commas is read
      back as exactly that name. */
  lemma CustomNamesSingle(name: string)
    requires name != [] && IsTrimmed(name) && CustomSeparator !in name
    ensures CustomNames(Some(name)) == [name]
  {
    assert !IsNullOrWhiteSpace(Some(name)) by { assert !IsWhiteSpace(name[0]); }
    SplitNoSep(name, CustomSeparator);
    TrimTrimmed(name);
    assert TrimAll([name]) == [name];
    assert Filter([name], NonEmpty()) == [name] by {
      assert Filter([name][1..], NonEmpty()) == [];
    }
  }

  /** The custom text is one clean name, and that name matches catalogue
      feature k, whose id is ticked as well. */
  predicate TickedAndTyped(catalogue: seq<GymFeature>, selected: seq<int>, name: string,
                           lower: string -> string, k: nat)
  {
    && k < |catalogue| && catalogue[k].id in selected
    && name != [] && IsTrimmed(name) && CustomSeparator !in name
    && MatchFeature(catalogue, name, lower) == k
  }

  /** For such an input the feature set is one step past the ticked ids. */
  lemma TickedAndTypedSet(catalogue: seq<GymFeature>, selected: seq<int>, name: string,
                          lower: string -> string, k: nat, onlyIfAbsent: bool, nextId: int)
    requires TickedAndTyped(catalogue, selected, name, lower, k)
    ensures var ticked := SelectedIds(catalogue, Some(selected));
      && catalogue[k].id in ticked
      && BuildFeatureSet(catalogue, Some(selected), Some(name), lower, onlyIfAbsent, nextId)
         == CustomStep(catalogue, lower, onlyIfAbsent, nextId, FeatureSet(ticked, []), name)
  {
    var ticked := SelectedIds(catalogue, Some(selected));
    var st := FeatureSet(ticked, []);
    CustomNamesSingle(name);
    assert [name][..0] == [];
    assert CustomFeatures(catalogue, lower, onlyIfAbsent, nextId, st, [name])
        == CustomStep(catalogue, lower, onlyIfAbsent, nextId, st, name);
    assert catalogue[k].id in ticked;
  }

  /** Create performs no presence check: a catalogue feature that is both
      ticked and typed in is listed twice, and nothing is created. */
  lemma CreateMayRepeatFeature(catalogue: seq<GymFeature>, selected: seq<int>, name: string,
                               lower: string -> string, k: nat, nextId: int)
    requires TickedAndTyped(catalogue, selected, name, lower, k)
    ensures var ticked := SelectedIds(catalogue, Some(selected));
      var r := BuildFeatureSet(catalogue, Some(selected), Some(name), lower, false, nextId);
      && catalogue[k].id in ticked
      && r.ids == ticked + [catalogue[k].id]
      && r.created == []
  {
    TickedAndTypedSet(catalogue, selected, name, lower, k, false, nextId);
  }

  /** The same input on Edit lists the feature once: the list is just the
      ticked ids, and nothing is created. */
  lemma EditListsFeatureOnce(catalogue: seq<GymFeature>, selected: seq<int>, name: string,
                             lower: string -> string, k: nat, nextId: int)
    requires TickedAndTyped(catalogue, selected, name, lower, k)
    ensures var r := BuildFeatureSet(catalogue, Some(selected), Some(name), lower, true, nextId);
      r.ids == SelectedIds(catalogue, Some(selected)) && r.created == []
  {
    TickedAndTypedSet(catalogue, selected, name, lower, k, true, nextId);
  }

  /** Appending the created features keeps the catalogue's identity invariant. */
  lemma AppendCreated(s: seq<GymFeature>, nextId: int, created: seq<GymFeature>)
    requires KeysBelow(s, FeatureKey, nextId)
    requires forall j :: 0 <= j < |created| ==> created[j].id == nextId + j
    ensures KeysBelow(s + created, FeatureKey, nextId + |created|)
  {
    var t := s + created;
    forall i, j | 0 <= i < j < |t| ensures FeatureKey(t[i]) != FeatureKey(t[j]) {
      if j >= |s| && i < |s| {
        assert t[i] == s[i] && t[j] == created[j - |s|];
      } else if i >= |s| {
        assert t[i] == created[i - |s|] && t[j] == created[j - |s|];
      }
    }
    forall i | 0 <= i < |t| ensures FeatureKey(t[i]) < nextId + |created| {
      if i >= |s| {
        assert t[i] == created[i - |s|];
      }
    }
  }

  /** Saving a feature set keeps the catalogue's ids fresh and distinct. */
  lemma FeatureSetSaved(catalogue: seq<GymFeature>, selected: Option<seq<int>>, custom: Option<string>,
                        lower: string -> string, onlyIfAbsent: bool, nextId: int)
    requires KeysBelow(catalogue, FeatureKey, nextId)
    ensures var fs := BuildFeatureSet(catalogue, selected, custom, lower, onlyIfAbsent, nextId);
      KeysBelow(catalogue + fs.created, FeatureKey, nextId + |fs.created|)
  {
    var st := FeatureSet(SelectedIds(catalogue, selected), []);
    var fs := CustomFeatures(catalogue, lower, onlyIfAbsent, nextId, st, CustomNames(custom));
    CustomFeaturesNumbered(catalogue, lower, onlyIfAbsent, nextId, st, CustomNames(custom));
    AppendCreated(catalogue, nextId, fs.created);
  }

  /** Every id of a gym's new feature list names a feature of the catalogue
      as saved with it. */
  lemma ListedFeaturesExist(catalogue: seq<GymFeature>, selected: Option<seq<int>>, custom: Option<string>,
                            lower: string -> string, onlyIfAbsent: bool, nextId: int)
    ensures var fs := BuildFeatureSet(catalogue, selected, custom, lower, onlyIfAbsent, nextId);
      forall x :: x in fs.ids ==> x in FeatureIds(catalogue + fs.created)
  {
    var st := FeatureSet(SelectedIds(catalogue, selected), []);
    var fs := CustomFeatures(catalogue, lower, onlyIfAbsent, nextId, st, CustomNames(custom));
    CustomFeaturesIds(catalogue, lower, onlyIfAbsent, nextId, st, CustomNames(custom));
    SelectedFromCatalogue(catalogue, selected);
    FeatureIdsAppend(catalogue, fs.created);
  }

  /** The catalogue with a feature set's new features added keeps its
      invariants, and holds every feature the set lists. */
  lemma FeatureSetStored(gyms: seq<Gym>, catalogue: seq<GymFeature>, selected: Option<seq<int>>,
                         custom: Option<string>, lower: string -> string, onlyIfAbsent: bool, nextId: int)
    requires KeysBelow(catalogue, FeatureKey, nextId) && GymFeaturesExist(gyms, catalogue)
    ensures var fs := BuildFeatureSet(catalogue, selected, custom, lower, onlyIfAbsent, nextId);
      && KeysBelow(catalogue + fs.created, FeatureKey, nextId + |fs.created|)
      && GymFeaturesExist(gyms, catalogue + fs.created)
      && forall x :: x in fs.ids ==> x in FeatureIds(catalogue + fs.created)
  {
    var fs := BuildFeatureSet(catalogue, selected, custom, lower, onlyIfAbsent, nextId);
    FeatureSetSaved(catalogue, selected, custom, lower, onlyIfAbsent, nextId);
    ListedFeaturesExist(catalogue, selected, custom, lower, onlyIfAbsent, nextId);
    GymFeaturesExistAppend(gyms, catalogue, fs.created);
  }

  /** The features of a new feature list that are not in the catalogue yet
      are added to it, numbered from the next feature id. */
  method SaveFeatureSet(db: Db, selected: Option<seq<int>>, custom: Option<string>, lower: string -> string,
                        onlyIfAbsent: bool)
    returns (ids: seq<int>)
    requires db.Valid()
    modifies db`gymFeatures, db`nextFeatureId
    ensures db.Valid()
    ensures var fs := BuildFeatureSet(old(db.gymFeatures), selected, custom, lower, onlyIfAbsent, old(db.nextFeatureId));
      && ids == fs.ids
      && db.gymFeatures == old(db.gymFeatures) + fs.created
      && db.nextFeatureId == old(db.nextFeatureId) + |fs.created|
    ensures forall x :: x in ids ==> x in FeatureIds(db.gymFeatures)
  {
    var fs := CollectFeatures(db.gymFeatures, selected, custom, lower, onlyIfAbsent, db.nextFeatureId);
    FeatureSetStored(db.gyms, db.gymFeatures, selected, custom, lower, onlyIfAbsent, db.nextFeatureId);
    db.gymFeatures := db.gymFeatures + fs.created;
    db.nextFeatureId := db.nextFeatureId + |fs.created|;
    FeaturesReplaced(db);
    ids := fs.ids;
  }

  /** Create (POST): adds the gym with its feature list and saves the new
      features with it. An invalid form saves nothing. */
  method CreateGym(db: Db, form: GymForm, selected: Option<seq<int>>, custom: Option<string>,
                   modelValid: bool, lower: string -> string)
    returns (r: Result<int, GymError>)
    requires db.Valid()
    modifies db`gyms, db`nextGymId, db`gymFeatures, db`nextFeatureId
    ensures db.Valid()
    ensures r.Err? <==> !modelValid
    ensures r.Err? ==> r.error == InvalidModel && db.gyms == old(db.gyms) && db.gymFeatures == old(db.gymFeatures)
                       && db.nextGymId == old(db.nextGymId) && db.nextFeatureId == old(db.nextFeatureId)
    ensures r.Ok? ==>
      var fs := BuildFeatureSet(old(db.gymFeatures), selected, custom, lower, false, old(db.nextFeatureId));
      && r.value == old(db.nextGymId)
      && db.nextGymId == old(db.nextGymId) + 1
      && db.nextFeatureId == old(db.nextFeatureId) + |fs.created|
      && db.gyms == old(db.gyms) +
           [Gym(r.value, form.name, form.address, form.monthlyPrice, form.annuallyPrice, fs.ids)]
      && db.gymFeatures == old(db.gymFeatures) + fs.created
  {
    if !modelValid {
      return Err(InvalidModel);
    }
    var ids := SaveFeatureSet(db, selected, custom, lower, false);
    var id := AddGym(db, form, ids);
    r := Ok(id);
  }

  /** Gyms.Add: the new row takes the next gym id. */
  method AddGym(db: Db, form: GymForm, ids: seq<int>) returns (id: int)
    requires db.Valid() && forall x :: x in ids ==> x in FeatureIds(db.gymFeatures)
    modifies db`gyms, db`nextGymId
    ensures db.Valid()
    ensures id == old(db.nextGymId) && db.nextGymId == id + 1
    ensures db.gyms == old(db.gyms) + [Gym(id, form.name, form.address, form.monthlyPrice, form.annuallyPrice, ids)]
  {
    id := db.nextGymId;
    var gym := Gym(id, form.name, form.address, form.monthlyPrice, form.annuallyPrice, ids);
    KeysBelowAppend(db.gyms, GymKey, id, gym);
    db.gyms := db.gyms + [gym];
    db.nextGymId := id + 1;
  }

  /** The gym after an edit: the four scalar columns from the form, the
      feature list rebuilt; the id is kept. */
  function EditedGym(g: Gym, form: GymForm, ids: seq<int>): (r: Gym)
    ensures r.id == g.id && r.features == ids
    ensures r.name == form.name && r.address == form.address
    ensures r.monthlyPrice == form.monthlyPrice && r.annuallyPrice == form.annuallyPrice
  {
    g.(name := form.name, address := form.address, monthlyPrice := form.monthlyPrice,
       annuallyPrice := form.annuallyPrice, features := ids)
  }

  /** Edit (POST): rewrites the gym's scalar columns and replaces its whole
      feature list; the previous list plays no part. */
  method EditGym(db: Db, id: int, form: GymForm, selected: Option<seq<int>>, custom: Option<string>,
                 modelValid: bool, lower: string -> string)
    returns (r: Result<int, GymError>)
    requires db.Valid()
    modifies db`gyms, db`gymFeatures, db`nextFeatureId
    ensures db.Valid()
    ensures var k := IndexOfKey(old(db.gyms), GymKey, id);
      && (r == Err(NotFound) <==> id != form.id || (modelValid && k < 0))
      && (r == Err(InvalidModel) <==> id == form.id && !modelValid)
      && (r.Ok? ==>
            var fs := BuildFeatureSet(old(db.gymFeatures), selected, custom, lower, true, old(db.nextFeatureId));
            && k >= 0 && r.value == id
            && db.gyms == old(db.gyms)[k := EditedGym(old(db.gyms)[k], form, fs.ids)]
            && db.gymFeatures == old(db.gymFeatures) + fs.created
            && db.nextFeatureId == old(db.nextFeatureId) + |fs.created|)
    ensures r.Err? ==> db.gyms == old(db.gyms) && db.gymFeatures == old(db.gymFeatures)
                       && db.nextFeatureId == old(db.nextFeatureId)
  {
    if id != form.id {
      return Err(NotFound);
    }
    if !modelValid {
      return Err(InvalidModel);
    }
    var k := IndexOfKey(db.gyms, GymKey, id);
    if k < 0 {
      return Err(NotFound);
    }
    var ids := SaveFeatureSet(db, selected, custom, lower, true);
    UpdateGym(db, k, form, ids);
    r := Ok(id);
  }

  /** The tracked gym row rewritten in place. */
  method UpdateGym(db: Db, k: nat, form: GymForm, ids: seq<int>)
    requires db.Valid() && k < |db.gyms|
    requires forall x :: x in ids ==> x in FeatureIds(db.gymFeatures)
    modifies db`gyms
    ensures db.Valid()
    ensures db.gyms == old(db.gyms)[k := EditedGym(old(db.gyms)[k], form, ids)]
  {
    var g := db.gyms;
    db.gyms := g[k := EditedGym(g[k], form, ids)];
    assert forall i :: 0 <= i < |g| ==> GymKey(db.gyms[i]) == GymKey(g[i]);
  }
}
