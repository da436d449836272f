/** One element of the parsed style catalog, the record the loader resolves from it,
    and the loader's pass over the catalog in file order (gradio_ui.py, lines 20-39). */
module StyleEntries {
  import opened Wrappers

  /** The two feature tags the loader keeps. */
  const FeatureChangestyle: string := "AI_Art_Changestyle"
  const FeatureArt: string := "AI_Art"

  predicate IsAcceptedFeature(f: string)
  {
    f == FeatureChangestyle || f == FeatureArt
  }

  /** `style.get('feature') in [...]`: the tag is present and one of the two kept ones. */
  predicate AcceptedTag(f: Option<string>)
  {
    f.Some? && IsAcceptedFeature(f.value)
  }

  /** Python truthiness of an optional string: present and non-empty. */
  predicate Present(s: Option<string>)
  {
    s.Some? && s.value != ""
  }

  /** The `image_after` / `image_before` member of a catalog object. */
  datatype ImageField =
    | Absent                        // no such key: `.get(key, {})` yields `{}`, whose `url` is None
    | NotAnObject                   // a non-object value such as `null`: `.get('url')` raises
    | ImageObject(url: Option<string>)

  /** One element of the catalog's top-level JSON array. */
  datatype Entry =
    | Malformed                     // not a JSON object: `style.get` raises
    | StyleObject(name: Option<string>, prompt: Option<string>, feature: Option<string>,
                  imageAfter: ImageField, imageBefore: ImageField)

  /** A resolved style, the value stored in the name-keyed lookup. */
  datatype StyleRecord = StyleRecord(name: string, prompt: string, feature: string,
                                     beforeUrl: Option<string>, afterUrl: string)

  /** A gallery sample `[before_url, after_url, name, feature]`. */
  datatype Sample = Sample(beforeUrl: Option<string>, afterUrl: string, name: string, feature: string)

  function ToSample(r: StyleRecord): Sample
  {
    Sample(r.beforeUrl, r.afterUrl, r.name, r.feature)
  }

  /** What the loop body does with one entry. */
  datatype Step = Raise | Skip | Keep(record: StyleRecord)

  /** The result of `style.get(key, {}).get('url')`. */
  datatype UrlRead = Raised | Url(path: Option<string>)

  function ReadUrl(f: ImageField): UrlRead
  {
    match f
    case Absent => Url(None)
    case NotAnObject => Raised
    case ImageObject(p) => Url(p)
  }

  /** `url` is `path` placed after the base prefix. */
  predicate IsResolution(base: string, path: string, url: string)
  {
    |url| == |base| + |path| && url[..|base|] == base && url[|base|..] == path
  }

  /** `f"{BASE_URL}{path}"`. */
  function Resolve(base: string, path: string): (url: string)
    ensures IsResolution(base, path, url)
    ensures base == "" ==> url == path
  {
    base + path
  }

  /** `f"{BASE_URL}{before_url}" if before_url else None`. */
  function ResolveOptional(base: string, path: Option<string>): (url: Option<string>)
    ensures url.Some? <==> Present(path)
    ensures url.Some? ==> IsResolution(base, path.value, url.value)
  {
    if Present(path) then Some(Resolve(base, path.value)) else None
  }

  /** Entries on which the loop body raises: a non-object element, or an object with a kept
      feature tag whose `image_after` or `image_before` is present but not an object. */
  predicate Raises(e: Entry)
  {
    || e.Malformed?
    || (AcceptedTag(e.feature) && (e.imageAfter.NotAnObject? || e.imageBefore.NotAnObject?))
  }

  /** Entries that yield a sample and a lookup record. */
  predicate Qualifies(e: Entry)
  {
    && !Raises(e)
    && e.StyleObject?
    && AcceptedTag(e.feature)
    && Present(e.name)
    && Present(e.prompt)
    && e.imageAfter.ImageObject?
    && Present(e.imageAfter.url)
  }

  /** The invariants every kept record satisfies. */
  predicate WellFormed(r: StyleRecord, base: string)
  {
    && IsAcceptedFeature(r.feature)
    && r.name != ""
    && r.prompt != ""
    && |r.afterUrl| > |base| && r.afterUrl[..|base|] == base
    && (r.beforeUrl.Some? ==> |r.beforeUrl.value| > |base| && r.beforeUrl.value[..|base|] == base)
  }

  /** The loop body for one catalog element. */
  function Examine(e: Entry, base: string): (st: Step)
    ensures st.Raise? <==> Raises(e)
    ensures st.Keep? <==> Qualifies(e)
    ensures st.Keep? ==> WellFormed(st.record, base)
    ensures st.Keep? ==>
              && e.name == Some(st.record.name)
              && e.prompt == Some(st.record.prompt)
              && e.feature == Some(st.record.feature)
              && e.imageAfter.ImageObject? && e.imageAfter.url.Some?
              && IsResolution(base, e.imageAfter.url.value, st.record.afterUrl)
              && (st.record.beforeUrl.Some? <==> e.imageBefore.ImageObject? && Present(e.imageBefore.url))
              && (st.record.beforeUrl.Some? ==>
                    IsResolution(base, e.imageBefore.url.value, st.record.beforeUrl.value))
  {
    match e
    case Malformed => Raise
    case StyleObject(name, prompt, feature, imageAfter, imageBefore) =>
      if !(feature == Some(FeatureChangestyle) || feature == Some(FeatureArt)) then
        Skip
      else
        var afterRead := ReadUrl(imageAfter);
        var beforeRead := ReadUrl(imageBefore);
        if afterRead.Raised? || beforeRead.Raised? then
          Raise
        else if Present(name) && Present(prompt) && Present(afterRead.path) && Present(feature) then
          Keep(StyleRecord(name.value, prompt.value, feature.value,
                           ResolveOptional(base, beforeRead.path),
                           Resolve(base, afterRead.path.value)))
        else
          Skip
  }

  /** The loop over the catalog in file order: `None` once any element raises, otherwise
      the records of the qualifying entries in the order they were appended. */
  function Collect(entries: seq<Entry>, base: string): (kept: Option<seq<StyleRecord>>)
    ensures kept.Some? ==> |kept.value| <= |entries|
    ensures kept.Some? ==> forall r :: r in kept.value ==> WellFormed(r, base)
    decreases |entries|
  {
    if |entries| == 0 then
      Some([])
    else
      var prefix := entries[..|entries| - 1];
      var last := entries[|entries| - 1];
      assert forall i :: 0 <= i < |prefix| ==> prefix[i] == entries[i];
      match Collect(prefix, base)
      case None => None
      case Some(acc) =>
        match Examine(last, base)
        case Raise => None
        case Skip => Some(acc)
        case Keep(r) => Some(acc + [r])
  }

  /** Soft failure: the pass fails exactly when some element of the catalog raises. */
  lemma {:induction false} CollectFailsIffRaises(entries: seq<Entry>, base: string)
    ensures Collect(entries, base).None? <==> exists i :: 0 <= i < |entries| && Raises(entries[i])
    decreases |entries|
  {
    if |entries| > 0 {
      var n := |entries| - 1;
      var prefix := entries[..n];
      assert forall i :: 0 <= i < |prefix| ==> prefix[i] == entries[i];
      CollectFailsIffRaises(prefix, base);
      if exists i :: 0 <= i < |entries| && Raises(entries[i]) {
        var i :| 0 <= i < |entries| && Raises(entries[i]);
        if i < n {
          assert Raises(prefix[i]);
        }
      }
    }
  }

  /** A record is kept exactly when some entry of the catalog yields it. */
  lemma {:induction false} CollectMembers(entries: seq<Entry>, base: string, r: StyleRecord)
    requires Collect(entries, base).Some?
    ensures r in Collect(entries, base).value <==> exists i :: 0 <= i < |entries| && Examine(entries[i], base) == Keep(r)
    decreases |entries|
  {
    if |entries| > 0 {
      var n := |entries| - 1;
      var prefix := entries[..n];
      assert forall i :: 0 <= i < |prefix| ==> prefix[i] == entries[i];
      CollectMembers(prefix, base, r);
      if exists i :: 0 <= i < |entries| && Examine(entries[i], base) == Keep(r) {
        var i :| 0 <= i < |entries| && Examine(entries[i], base) == Keep(r);
        if i < n {
          assert Examine(prefix[i], base) == Keep(r);
        }
      }
    }
  }

  /** Both passes must succeed for a pass over their concatenation to succeed. */
  function Concat(x: Option<seq<StyleRecord>>, y: Option<seq<StyleRecord>>): Option<seq<StyleRecord>>
  {
    if x.Some? && y.Some? then Some(x.value + y.value) else None
  }

  /** The pass is compositional: each entry contributes on its own, in file order, so a
      qualifying entry that repeats an earlier one still yields its own record. */
  lemma {:induction false} CollectAppend(a: seq<Entry>, b: seq<Entry>, base: string)
    ensures Collect(a + b, base) == Concat(Collect(a, base), Collect(b, base))
    decreases |b|
  {
    if |b| == 0 {
      assert a + b == a;
      assert Collect(b, base) == Some([]);
      if Collect(a, base).Some? {
        assert Collect(a, base).value + [] == Collect(a, base).value;
      }
    } else {
      var b' := b[..|b| - 1];
      assert (a + b)[..|a + b| - 1] == a + b';
      assert (a + b)[|a + b| - 1] == b[|b| - 1];
      CollectAppend(a, b', base);
      match Examine(b[|b| - 1], base)
      case Raise =>
      case Skip =>
      case Keep(r) =>
        if Collect(a, base).Some? && Collect(b', base).Some? {
          assert Collect(a, base).value + (Collect(b', base).value + [r])
              == (Collect(a, base).value + Collect(b', base).value) + [r];
        }
    }
  }

  /** The pass over a one-entry catalog. */
  lemma CollectSingle(e: Entry, base: string)
    ensures Collect([e], base) == match Examine(e, base)
                                  case Raise => None
                                  case Skip => Some([])
                                  case Keep(r) => Some([r])
  {
    assert [e][..0] == [];
    assert Collect([], base) == Some([]);
    match Examine(e, base)
    case Raise =>
    case Skip =>
    case Keep(r) =>
      assert [] + [r] == [r];
  }

  /** The positions of the qualifying entries. */
  function QualifyingIndices(entries: seq<Entry>): set<int>
  {
    set i | 0 <= i < |entries| && Qualifies(entries[i])
  }

  /** One step of the pass, when nothing raises: the last entry adds a record exactly when
      it qualifies. */
  lemma CollectStep(entries: seq<Entry>, base: string)
    requires |entries| > 0
    requires forall i :: 0 <= i < |entries| ==> !Raises(entries[i])
    ensures Collect(entries[..|entries| - 1], base).Some? && Collect(entries, base).Some?
    ensures |Collect(entries, base).value|
         == |Collect(entries[..|entries| - 1], base).value| + (if Qualifies(entries[|entries| - 1]) then 1 else 0)
  {
    var prefix := entries[..|entries| - 1];
    assert forall i :: 0 <= i < |prefix| ==> prefix[i] == entries[i];
  }

  /** Extending the catalog by one entry adds one qualifying position exactly when that
      entry qualifies. */
  lemma QualifyingIndicesStep(entries: seq<Entry>)
    requires |entries| > 0
    ensures |QualifyingIndices(entries)|
         == |QualifyingIndices(entries[..|entries| - 1])| + (if Qualifies(entries[|entries| - 1]) then 1 else 0)
  {
    var n := |entries| - 1;
    var prefix := entries[..n];
    var before := QualifyingIndices(prefix);
    var after := QualifyingIndices(entries);
    forall i | i in after - {n} ensures i in before {
      assert prefix[i] == entries[i];
    }
    forall i | i in before ensures i in after - {n} {
      assert prefix[i] == entries[i];
    }
    assert after - {n} == before;
    if Qualifies(entries[n]) {
      assert after == before + {n};
    } else {
      assert after == before;
    }
  }

  /** One record per qualifying entry: the pass yields as many records as there are
      qualifying positions, repeated names and all. */
  lemma {:induction false} CollectCountsQualifying(entries: seq<Entry>, base: string)
    requires forall i :: 0 <= i < |entries| ==> !Raises(entries[i])
    ensures Collect(entries, base).Some?
    ensures |Collect(entries, base).value| == |QualifyingIndices(entries)|
    decreases |entries|
  {
    if |entries| == 0 {
      assert QualifyingIndices(entries) == {};
    } else {
      var prefix := entries[..|entries| - 1];
      assert forall i :: 0 <= i < |prefix| ==> prefix[i] == entries[i];
      CollectCountsQualifying(prefix, base);
      CollectStep(entries, base);
      QualifyingIndicesStep(entries);
    }
  }
}
