/** packages/jobs/src/ingestion/normalizer.ts: one slug for every API, the same again on every re-import. */
module SlugCollisions {
  import opened Basics

  /** options are the slugs to try in order: the record's own, then its candidates. */
  datatype Record<S, F> = Record(options: seq<S>, fallback: S, fingerprint: F)

  // ---------- Choosing a slug ----------

  /** Another record of this pass has it, or it is reserved for another fingerprint. */
  predicate Taken<S(==), F(==)>(claims: set<S>, reserved: map<S, F>, slug: S, fingerprint: F) {
    slug in claims || (slug in reserved && reserved[slug] != fingerprint)
  }

  /** The first option that is not taken, or else the fallback, which is not checked. */
  function Pick<S(==), F(==)>(claims: set<S>, reserved: map<S, F>, options: seq<S>, r: Record<S, F>): S
    decreases |options|
  {
    if options == [] then r.fallback
    else if !Taken(claims, reserved, options[0], r.fingerprint) then options[0]
    else Pick(claims, reserved, options[1..], r)
  }

  ghost function Resolve<S, F>(claims: set<S>, reserved: map<S, F>, rs: seq<Record<S, F>>): (slugs: seq<S>)
    ensures |slugs| == |rs|
    decreases |rs|
  {
    if rs == [] then []
    else
      var p := Pick(claims, reserved, rs[0].options, rs[0]);
      [p] + Resolve(claims + {p}, reserved, rs[1..])
  }

  /** The loop over the options finds none that is free. */
  ghost predicate Exhausted<S, F>(claims: set<S>, reserved: map<S, F>, options: seq<S>, fingerprint: F) {
    forall k {:trigger options[k]} :: 0 <= k < |options| ==> Taken(claims, reserved, options[k], fingerprint)
  }

  /** The fallback is all that is left, and somebody has it already. */
  ghost predicate Collides<S, F>(claims: set<S>, reserved: map<S, F>, r: Record<S, F>) {
    Exhausted(claims, reserved, r.options, r.fingerprint) && Taken(claims, reserved, r.fallback, r.fingerprint)
  }

  lemma {:induction false} PickIsFallback<S, F>(claims: set<S>, reserved: map<S, F>, options: seq<S>, r: Record<S, F>)
    ensures var p := Pick(claims, reserved, options, r);
            if Exhausted(claims, reserved, options, r.fingerprint) then p == r.fallback
            else p in options && !Taken(claims, reserved, p, r.fingerprint)
    decreases |options|
  {
    if options != [] {
      PickIsFallback(claims, reserved, options[1..], r);
      if Taken(claims, reserved, options[0], r.fingerprint) {
        assert Exhausted(claims, reserved, options[1..], r.fingerprint) ==> Exhausted(claims, reserved, options, r.fingerprint) by {
          forall k | Exhausted(claims, reserved, options[1..], r.fingerprint) && 0 <= k < |options|
            ensures Taken(claims, reserved, options[k], r.fingerprint)
          {
            if k > 0 { assert options[1..][k - 1] == options[k]; }
          }
        }
      }
    }
  }

  /** A taken slug is given out exactly to a record that collides. */
  lemma TakenExactlyOnCollision<S, F>(claims: set<S>, reserved: map<S, F>, r: Record<S, F>)
    ensures Taken(claims, reserved, Pick(claims, reserved, r.options, r), r.fingerprint) <==> Collides(claims, reserved, r)
  {
    PickIsFallback(claims, reserved, r.options, r);
  }

  /** No record collides when its turn comes. */
  ghost predicate NoneCollides<S, F>(claims: set<S>, reserved: map<S, F>, rs: seq<Record<S, F>>)
    decreases |rs|
  {
    rs != [] ==>
      !Collides(claims, reserved, rs[0])
      && NoneCollides(claims + {Pick(claims, reserved, rs[0].options, rs[0])}, reserved, rs[1..])
  }

  // ---------- Enough options ----------

  /** The options of a record that are reserved for others. */
  ghost function Blocked<S, F>(reserved: map<S, F>, r: Record<S, F>): set<S> {
    set s | s in r.options && s in reserved && reserved[s] != r.fingerprint
  }

  /** More different options than the others can have taken: one for each record before, and those reserved. */
  ghost predicate HasRoom<S, F>(before: nat, reserved: map<S, F>, r: Record<S, F>) {
    before + |Blocked(reserved, r)| < |Members(r.options)|
  }

  lemma ExhaustedIsCovered<S, F>(claims: set<S>, reserved: map<S, F>, r: Record<S, F>)
    requires Exhausted(claims, reserved, r.options, r.fingerprint)
    ensures |Members(r.options)| <= |claims| + |Blocked(reserved, r)|
  {
    forall s | s in Members(r.options) ensures s in claims + Blocked(reserved, r) {
      var k :| 0 <= k < |r.options| && r.options[k] == s;
    }
    SubsetSize(Members(r.options), claims + Blocked(reserved, r));
  }

  /** Records with enough options never collide: each of those before it has claimed one slug. */
  lemma {:induction false} RoomPreventsCollisions<S, F>(claims: set<S>, reserved: map<S, F>, rs: seq<Record<S, F>>, before: nat)
    requires |claims| <= before
    requires forall i {:trigger rs[i]} :: 0 <= i < |rs| ==> HasRoom(before + i, reserved, rs[i])
    ensures NoneCollides(claims, reserved, rs)
    decreases |rs|
  {
    if rs != [] {
      var rest := rs[1..];
      assert HasRoom(before + 0, reserved, rs[0]);
      if Exhausted(claims, reserved, rs[0].options, rs[0].fingerprint) { ExhaustedIsCovered(claims, reserved, rs[0]); }
      forall i | 0 <= i < |rest| ensures HasRoom(before + 1 + i, reserved, rest[i]) {
        assert rest[i] == rs[i + 1] && HasRoom(before + (i + 1), reserved, rs[i + 1]);
      }
      RoomPreventsCollisions(claims + {Pick(claims, reserved, rs[0].options, rs[0])}, reserved, rest, before + 1);
    }
  }

  // ---------- Uniqueness ----------

  ghost predicate Owned<S, F>(claims: set<S>, reserved: map<S, F>, slug: S, fingerprint: F) {
    slug !in claims && (slug in reserved ==> reserved[slug] == fingerprint)
  }

  ghost predicate DistinctSlugs<S>(slugs: seq<S>) {
    slugs != [] ==> slugs[0] !in slugs[1..] && DistinctSlugs(slugs[1..])
  }

  ghost predicate AllOwned<S, F>(claims: set<S>, reserved: map<S, F>, rs: seq<Record<S, F>>, slugs: seq<S>)
    requires |rs| == |slugs|
  {
    forall i {:trigger Owned(claims, reserved, slugs[i], rs[i].fingerprint)} ::
      0 <= i < |rs| ==> Owned(claims, reserved, slugs[i], rs[i].fingerprint)
  }

  /**
   * The resolved slugs are pairwise distinct and none of them is reserved for
   * another fingerprint, exactly when no record that has used up its options
   * finds its fallback taken as well.
   */
  lemma {:induction false} UniqueExactly<S, F>(claims: set<S>, reserved: map<S, F>, rs: seq<Record<S, F>>)
    ensures var slugs := Resolve(claims, reserved, rs);
            NoneCollides(claims, reserved, rs) <==> DistinctSlugs(slugs) && AllOwned(claims, reserved, rs, slugs)
    decreases |rs|
  {
    if rs != [] {
      var p, slugs := Pick(claims, reserved, rs[0].options, rs[0]), Resolve(claims, reserved, rs);
      var rest := slugs[1..];
      TakenExactlyOnCollision(claims, reserved, rs[0]);
      UniqueExactly(claims + {p}, reserved, rs[1..]);
      assert rest == Resolve(claims + {p}, reserved, rs[1..]);
      assert Owned(claims, reserved, slugs[0], rs[0].fingerprint) <==> !Taken(claims, reserved, p, rs[0].fingerprint);
      if DistinctSlugs(slugs) && AllOwned(claims, reserved, rs, slugs) {
        forall i | 0 <= i < |rest|
          ensures Owned(claims + {p}, reserved, rest[i], rs[1..][i].fingerprint)
        {
          assert rest[i] == slugs[i + 1] && rest[i] in rest;
          assert Owned(claims, reserved, slugs[i + 1], rs[i + 1].fingerprint);
        }
      }
      if NoneCollides(claims, reserved, rs) {
        forall i | 0 <= i < |rs|
          ensures Owned(claims, reserved, slugs[i], rs[i].fingerprint)
        {
          if i > 0 { assert Owned(claims + {p}, reserved, rest[i - 1], rs[1..][i - 1].fingerprint); }
        }
        forall k | 0 <= k < |rest|
          ensures rest[k] != p
        {
          assert Owned(claims + {p}, reserved, rest[k], rs[1..][k].fingerprint);
        }
      }
    }
  }

  // ---------- Stability ----------

  ghost predicate DistinctFingerprints<S, F>(rs: seq<Record<S, F>>) {
    rs != [] ==> (forall k :: 1 <= k < |rs| ==> rs[k].fingerprint != rs[0].fingerprint) && DistinctFingerprints(rs[1..])
  }

  /** The reservations once the result has been stored. */
  ghost function Extended<S, F>(reserved: map<S, F>, rs: seq<Record<S, F>>, slugs: seq<S>): map<S, F>
    requires |rs| == |slugs|
    decreases |rs|
  {
    if rs == [] then reserved else Extended(reserved[slugs[0] := rs[0].fingerprint], rs[1..], slugs[1..])
  }

  /** Every slug before p is reserved for someone else, and p, if it is an option, is the next. */
  ghost predicate Settled<S, F>(final: map<S, F>, options: seq<S>, r: Record<S, F>, p: S)
    decreases |options|
  {
    if options == [] then p == r.fallback
    else if options[0] == p then true
    else options[0] in final && final[options[0]] != r.fingerprint && Settled(final, options[1..], r, p)
  }

  /** A settled record is given its slug again, by whatever else is claimed. */
  lemma {:induction false} PickedAgain<S, F>(claims: set<S>, final: map<S, F>, options: seq<S>, r: Record<S, F>, p: S)
    requires Settled(final, options, r, p) && p !in claims && p in final && final[p] == r.fingerprint
    ensures Pick(claims, final, options, r) == p
    decreases |options|
  {
    if options != [] && options[0] != p { PickedAgain(claims, final, options[1..], r, p); }
  }

  /** A slug claimed so far is reserved, in the end, for a fingerprint that is none of those still to come. */
  ghost predicate ClaimedByOthers<S, F>(claims: set<S>, final: map<S, F>, rs: seq<Record<S, F>>) {
    forall c, k {:trigger ClaimedByOther(final, c, rs, k)} :: c in claims && 0 <= k < |rs| ==> ClaimedByOther(final, c, rs, k)
  }

  ghost predicate ClaimedByOther<S, F>(final: map<S, F>, c: S, rs: seq<Record<S, F>>, k: nat)
    requires k < |rs|
  {
    c in final && final[c] != rs[k].fingerprint
  }

  lemma ClaimOne<S, F>(claims: set<S>, final: map<S, F>, rs: seq<Record<S, F>>, p: S)
    requires rs != [] && DistinctFingerprints(rs) && ClaimedByOthers(claims, final, rs)
    requires p in final && final[p] == rs[0].fingerprint
    ensures ClaimedByOthers(claims + {p}, final, rs[1..])
  {
    forall c, k | c in claims + {p} && 0 <= k < |rs[1..]|
      ensures ClaimedByOther(final, c, rs[1..], k)
    {
      if c in claims { assert ClaimedByOther(final, c, rs, k + 1); }
    }
  }

  lemma {:induction false} SettledByPick<S, F>(claims: set<S>, reserved: map<S, F>, final: map<S, F>, options: seq<S>,
                                              r: Record<S, F>, rs: seq<Record<S, F>>)
    requires rs != [] && rs[0] == r && ClaimedByOthers(claims, final, rs)
    requires forall s :: s in reserved ==> s in final && final[s] == reserved[s]
    ensures Settled(final, options, r, Pick(claims, reserved, options, r))
    decreases |options|
  {
    if options != [] && Taken(claims, reserved, options[0], r.fingerprint) {
      SettledByPick(claims, reserved, final, options[1..], r, rs);
      if options[0] in claims { assert ClaimedByOther(final, options[0], rs, 0); }
    }
  }

  /** final keeps the reservations and gives every record its slug. */
  ghost predicate Holds<S, F>(reserved: map<S, F>, final: map<S, F>, rs: seq<Record<S, F>>, slugs: seq<S>)
    requires |rs| == |slugs|
  {
    && (forall s :: s in reserved ==> s in final && final[s] == reserved[s])
    && (forall i {:trigger slugs[i]} :: 0 <= i < |rs| ==> slugs[i] in final && final[slugs[i]] == rs[i].fingerprint)
  }

  ghost predicate SettledAt<S, F>(final: map<S, F>, rs: seq<Record<S, F>>, slugs: seq<S>, i: nat)
    requires i < |rs| == |slugs|
  {
    Settled(final, rs[i].options, rs[i], slugs[i])
  }

  lemma {:induction false} AllSettled<S, F>(claims: set<S>, reserved: map<S, F>, final: map<S, F>, rs: seq<Record<S, F>>, i: nat)
    requires i < |rs| && DistinctFingerprints(rs) && ClaimedByOthers(claims, final, rs)
    requires Holds(reserved, final, rs, Resolve(claims, reserved, rs))
    ensures SettledAt(final, rs, Resolve(claims, reserved, rs), i)
    decreases |rs|
  {
    var slugs := Resolve(claims, reserved, rs);
    var p := slugs[0];
    SettledByPick(claims, reserved, final, rs[0].options, rs[0], rs);
    if i > 0 {
      ClaimOne(claims, final, rs, p);
      assert slugs[1..] == Resolve(claims + {p}, reserved, rs[1..]);
      AllSettled(claims + {p}, reserved, final, rs[1..], i - 1);
      assert SettledAt(final, rs[1..], slugs[1..], i - 1);
    }
  }

  lemma {:induction false} ExtendedHolds<S, F>(reserved: map<S, F>, rs: seq<Record<S, F>>, slugs: seq<S>)
    requires |rs| == |slugs| && DistinctSlugs(slugs) && AllOwned({}, reserved, rs, slugs)
    ensures Holds(reserved, Extended(reserved, rs, slugs), rs, slugs)
    decreases |rs|
  {
    if rs != [] {
      assert Owned({}, reserved, slugs[0], rs[0].fingerprint);
      var next := reserved[slugs[0] := rs[0].fingerprint];
      forall i | 0 <= i < |rs[1..]|
        ensures Owned({}, next, slugs[1..][i], rs[1..][i].fingerprint)
      {
        assert Owned({}, reserved, slugs[i + 1], rs[i + 1].fingerprint);
        assert slugs[1..][i] in slugs[1..];
      }
      ExtendedHolds(next, rs[1..], slugs[1..]);
      var final := Extended(reserved, rs, slugs);
      assert slugs[0] in next && final[slugs[0]] == next[slugs[0]];
      forall i | 0 <= i < |rs|
        ensures slugs[i] in final && final[slugs[i]] == rs[i].fingerprint
      {
        if i > 0 { assert slugs[1..][i - 1] == slugs[i]; }
      }
    }
  }

  /** at[k] tells which of the records was put in the k-th place of the re-import. */
  ghost predicate Reimports<S, F>(rs: seq<Record<S, F>>, at: seq<nat>, qs: seq<Record<S, F>>) {
    |at| == |qs| && forall k {:trigger at[k]} :: 0 <= k < |qs| ==> at[k] < |rs| && qs[k] == rs[at[k]]
  }

  lemma {:induction false} ResolvedAgain<S, F>(claims: set<S>, final: map<S, F>, rs: seq<Record<S, F>>, slugs: seq<S>,
                                              at: seq<nat>, qs: seq<Record<S, F>>, k: nat)
    requires |rs| == |slugs| && Reimports(rs, at, qs) && DistinctFingerprints(qs) && k < |qs|
    requires forall i {:trigger SettledAt(final, rs, slugs, i)} :: 0 <= i < |rs| ==> SettledAt(final, rs, slugs, i)
    requires forall i {:trigger slugs[i]} :: 0 <= i < |rs| ==> slugs[i] in final && final[slugs[i]] == rs[i].fingerprint
    requires ClaimedByOthers(claims, final, qs)
    ensures Resolve(claims, final, qs)[k] == slugs[at[k]]
    decreases |qs|
  {
    var p := slugs[at[0]];
    assert qs[0] == rs[at[0]] && SettledAt(final, rs, slugs, at[0]);
    forall c | c in claims
      ensures c != p
    {
      assert ClaimedByOther(final, c, qs, 0);
    }
    PickedAgain(claims, final, qs[0].options, qs[0], p);
    if k > 0 {
      ClaimOne(claims, final, qs, p);
      assert Reimports(rs, at[1..], qs[1..]) by {
        forall j | 0 <= j < |qs[1..]| ensures at[1..][j] < |rs| && qs[1..][j] == rs[at[1..][j]] { assert at[1..][j] == at[j + 1]; }
      }
      ResolvedAgain(claims + {p}, final, rs, slugs, at[1..], qs[1..], k - 1);
    }
  }

  /**
   * Re-resolving any of the records, in any order, with the first result
   * added to the reservations, gives every one of them its slug again.
   */
  lemma ReimportIsStable<S, F>(reserved: map<S, F>, rs: seq<Record<S, F>>, at: seq<nat>, qs: seq<Record<S, F>>, k: nat)
    requires DistinctFingerprints(rs) && NoneCollides({}, reserved, rs)
    requires Reimports(rs, at, qs) && DistinctFingerprints(qs) && k < |qs|
    ensures var slugs := Resolve({}, reserved, rs);
            Resolve({}, Extended(reserved, rs, slugs), qs)[k] == slugs[at[k]]
  {
    var slugs := Resolve({}, reserved, rs);
    var final := Extended(reserved, rs, slugs);
    UniqueExactly({}, reserved, rs);
    ExtendedHolds(reserved, rs, slugs);
    forall i | 0 <= i < |rs|
      ensures SettledAt(final, rs, slugs, i)
    {
      AllSettled({}, reserved, final, rs, i);
    }
    ResolvedAgain({}, final, rs, slugs, at, qs, k);
  }

  // ---------- The function itself ----------

  /** provider is the first label of the provider's host name as a slug, if there is one. */
  datatype Api = Api(slug: string, fingerprint: string, provider: Option<string>)

  /** A number below one hundred in decimal notation. */
  function Decimal(n: nat): string
    requires n < 100
  {
    if n < 10 then [Digit(n)] else [Digit(n / 10), Digit(n % 10)]
  }

  function Digit(d: nat): char
    requires d < 10
  {
    ('0' as int + d) as char
  }

  function Numbered(slug: string, upTo: nat): seq<string>
    requires upTo < 100
  {
    if upTo < 2 then [] else Numbered(slug, upTo - 1) + [slug + "-" + Decimal(upTo)]
  }

  function Labelled(api: Api): seq<string> {
    if api.provider.Some? && api.provider.value != api.slug then [api.slug + "-" + api.provider.value] else []
  }

  ghost function RecordOf(api: Api): Record<string, string> {
    Record([api.slug] + (Labelled(api) + Numbered(api.slug, 50)), Fallback(api), api.fingerprint)
  }

  function Fallback(api: Api): string {
    api.slug + "-" + if |api.fingerprint| > 6 then api.fingerprint[..6] else api.fingerprint
  }

  ghost function RecordsOf(apis: seq<Api>): (rs: seq<Record<string, string>>)
    ensures |rs| == |apis|
  {
    if apis == [] then [] else [RecordOf(apis[0])] + RecordsOf(apis[1..])
  }

  ghost function Renamed(apis: seq<Api>, slugs: seq<string>): (r: seq<Api>)
    requires |apis| == |slugs|
    ensures |r| == |apis|
  {
    if apis == [] then [] else [apis[0].(slug := slugs[0])] + Renamed(apis[1..], slugs[1..])
  }

  /** The APIs as they are returned when these slugs are already claimed. */
  ghost function Resolved(claims: set<string>, reserved: map<string, string>, apis: seq<Api>): (r: seq<Api>) {
    Renamed(apis, Resolve(claims, reserved, RecordsOf(apis)))
  }

  lemma ResolvedFirst(claims: set<string>, reserved: map<string, string>, apis: seq<Api>)
    requires apis != []
    ensures var r := RecordOf(apis[0]);
            var p := Pick(claims, reserved, r.options, r);
            Resolved(claims, reserved, apis) == [apis[0].(slug := p)] + Resolved(claims + {p}, reserved, apis[1..])
  {
    var r := RecordOf(apis[0]);
    var p := Pick(claims, reserved, r.options, r);
    assert RecordsOf(apis)[1..] == RecordsOf(apis[1..]);
    assert Resolve(claims, reserved, RecordsOf(apis))[1..] == Resolve(claims + {p}, reserved, RecordsOf(apis[1..]));
  }

  method ResolveSlugCollisions(apis: seq<Api>, reserved: map<string, string>) returns (result: seq<Api>)
    ensures result == Resolved({}, reserved, apis)
  {
    result := [];
    var claims: set<string> := {};
    for i := 0 to |apis|
      invariant result + Resolved(claims, reserved, apis[i..]) == Resolved({}, reserved, apis)
    {
      var api := apis[i];
      assert apis[i..][1..] == apis[i + 1..];
      ResolvedFirst(claims, reserved, apis[i..]);
      var slug := ChooseSlug(claims, reserved, api);
      claims := claims + {slug};
      result := result + [api.(slug := slug)];
    }
    assert apis[|apis|..] == [];
  }

  method ChooseSlug(claims: set<string>, reserved: map<string, string>, api: Api) returns (slug: string)
    ensures slug == Pick(claims, reserved, RecordOf(api).options, RecordOf(api))
  {
    ghost var r := RecordOf(api);
    assert r.options[1..] == Labelled(api) + Numbered(api.slug, 50);
    if !Taken(claims, reserved, api.slug, api.fingerprint) { return api.slug; }
    var candidates := Labelled(api);
    for n := 2 to 51
      invariant candidates == Labelled(api) + Numbered(api.slug, n - 1)
    {
      candidates := candidates + [api.slug + "-" + Decimal(n)];
    }
    for k := 0 to |candidates|
      invariant Pick(claims, reserved, r.options, r) == Pick(claims, reserved, candidates[k..], r)
    {
      assert candidates[k..][1..] == candidates[k + 1..];
      if !Taken(claims, reserved, candidates[k], api.fingerprint) { return candidates[k]; }
    }
    assert candidates[|candidates|..] == [];
    slug := Fallback(api);
  }

  // ---------- The order of preference ----------

  /** No API before has the slug, and it is not reserved for another one. */
  ghost predicate Free(reserved: map<string, string>, before: seq<Api>, api: Api, slug: string) {
    (forall j {:trigger before[j]} :: 0 <= j < |before| ==> before[j].slug != slug)
    && (slug in reserved ==> reserved[slug] == api.fingerprint)
  }

  ghost function SlugsOf(apis: seq<Api>): set<string> {
    set j: nat | j < |apis| :: apis[j].slug
  }

  lemma FreeIsNotTaken(reserved: map<string, string>, before: seq<Api>, api: Api, slug: string)
    ensures Free(reserved, before, api, slug) <==> !Taken(SlugsOf(before), reserved, slug, api.fingerprint)
  {
    assert slug in SlugsOf(before) <==> !(forall j {:trigger before[j]} :: 0 <= j < |before| ==> before[j].slug != slug);
  }

  /** An API picks its slug from what those before it have left. */
  lemma {:induction false} ResolvedAt(claims: set<string>, reserved: map<string, string>, apis: seq<Api>, i: nat)
    requires i < |apis|
    ensures var all, r := Resolved(claims, reserved, apis), RecordOf(apis[i]);
            |all| == |apis| && all[i] == apis[i].(slug := Pick(claims + SlugsOf(all[..i]), reserved, r.options, r))
    decreases i
  {
    var all, r := Resolved(claims, reserved, apis), RecordOf(apis[0]);
    var p := Pick(claims, reserved, r.options, r);
    ResolvedFirst(claims, reserved, apis);
    if i == 0 {
      assert claims + SlugsOf(all[..0]) == claims;
    } else {
      var rest := Resolved(claims + {p}, reserved, apis[1..]);
      ResolvedAt(claims + {p}, reserved, apis[1..], i - 1);
      assert all[..i] == [all[0]] + rest[..i - 1];
      SlugsOfCons(all[0], rest[..i - 1]);
      assert claims + {p} + SlugsOf(rest[..i - 1]) == claims + SlugsOf(all[..i]);
    }
  }

  lemma SlugsOfCons(a: Api, rest: seq<Api>)
    ensures SlugsOf([a] + rest) == {a.slug} + SlugsOf(rest)
  {
    forall s | s in {a.slug} + SlugsOf(rest) ensures s in SlugsOf([a] + rest) {
      if s != a.slug {
        var j: nat :| j < |rest| && rest[j].slug == s;
        assert ([a] + rest)[j + 1].slug == s;
      } else {
        assert ([a] + rest)[0].slug == s;
      }
    }
  }

  lemma {:induction false} PickSkipsTaken<S, F>(claims: set<S>, reserved: map<S, F>, taken: seq<S>, options: seq<S>, r: Record<S, F>)
    requires Exhausted(claims, reserved, taken, r.fingerprint)
    ensures Pick(claims, reserved, taken + options, r) == Pick(claims, reserved, options, r)
    decreases |taken|
  {
    if taken == [] {
      assert taken + options == options;
    } else {
      assert Taken(claims, reserved, taken[0], r.fingerprint);
      assert Exhausted(claims, reserved, taken[1..], r.fingerprint) by {
        forall k | 0 <= k < |taken[1..]| ensures Taken(claims, reserved, taken[1..][k], r.fingerprint) {
          assert taken[1..][k] == taken[k + 1];
        }
      }
      assert (taken + options)[1..] == taken[1..] + options;
      PickSkipsTaken(claims, reserved, taken[1..], options, r);
    }
  }

  lemma {:induction false} NumberedAt(slug: string, upTo: nat, n: nat)
    requires 2 <= n <= upTo < 100
    ensures |Numbered(slug, upTo)| == upTo - 1 && Numbered(slug, upTo)[n - 2] == slug + "-" + Decimal(n)
    decreases upTo
  {
    if upTo > 2 { NumberedAt(slug, upTo - 1, if n < upTo then n else upTo - 1); }
  }

  /** All numbers from 2 on below n are taken. */
  ghost predicate NoneBelow(reserved: map<string, string>, before: seq<Api>, api: Api, n: nat)
    requires n <= 100
  {
    forall m {:trigger Decimal(m)} :: 2 <= m < n ==> !Free(reserved, before, api, api.slug + "-" + Decimal(m))
  }

  /** n is the least number that is free. */
  ghost predicate LeastFree(reserved: map<string, string>, before: seq<Api>, api: Api, n: nat) {
    2 <= n <= 50 && NoneBelow(reserved, before, api, n) && Free(reserved, before, api, api.slug + "-" + Decimal(n))
  }

  lemma NumbersTaken(reserved: map<string, string>, before: seq<Api>, api: Api, n: nat)
    requires 2 <= n <= 51 && NoneBelow(reserved, before, api, n)
    ensures |Numbered(api.slug, 50)| == 49
    ensures Exhausted(SlugsOf(before), reserved, Numbered(api.slug, 50)[..n - 2], api.fingerprint)
  {
    NumberedAt(api.slug, 50, 50);
    var numbers := Numbered(api.slug, 50)[..n - 2];
    forall k | 0 <= k < |numbers| ensures Taken(SlugsOf(before), reserved, numbers[k], api.fingerprint) {
      NumberedAt(api.slug, 50, k + 2);
      assert !Free(reserved, before, api, api.slug + "-" + Decimal(k + 2));
      FreeIsNotTaken(reserved, before, api, api.slug + "-" + Decimal(k + 2));
    }
  }

  lemma PickFree<S, F>(claims: set<S>, reserved: map<S, F>, taken: seq<S>, slug: S, later: seq<S>, r: Record<S, F>)
    requires Exhausted(claims, reserved, taken, r.fingerprint) && !Taken(claims, reserved, slug, r.fingerprint)
    ensures Pick(claims, reserved, taken + ([slug] + later), r) == slug
  {
    PickSkipsTaken(claims, reserved, taken, [slug] + later, r);
  }

  /** Neither the slug of the API itself nor the one with the label of its provider can be had. */
  ghost predicate OwnSlugsTaken(reserved: map<string, string>, before: seq<Api>, api: Api) {
    && !Free(reserved, before, api, api.slug)
    && (api.provider.Some? && api.provider.value != api.slug ==> !Free(reserved, before, api, api.slug + "-" + api.provider.value))
  }

  lemma PickNumber(reserved: map<string, string>, before: seq<Api>, api: Api)
    requires OwnSlugsTaken(reserved, before, api)
    ensures var r := RecordOf(api);
            Pick(SlugsOf(before), reserved, r.options, r) == Pick(SlugsOf(before), reserved, Numbered(api.slug, 50), r)
  {
    var r := RecordOf(api);
    var own := [api.slug] + Labelled(api);
    FreeIsNotTaken(reserved, before, api, api.slug);
    if api.provider.Some? { FreeIsNotTaken(reserved, before, api, api.slug + "-" + api.provider.value); }
    assert r.options == own + Numbered(api.slug, 50);
    PickSkipsTaken(SlugsOf(before), reserved, own, Numbered(api.slug, 50), r);
  }

  /**
   * An API keeps its slug if that is free when its turn comes. If not, it gets
   * the slug with the label of its provider, if it has one that is not the
   * slug itself and that is free; else the slug with the least number from 2
   * to 50 that is free; else the slug with the first six characters of its
   * fingerprint, free or not. Nothing else of it changes.
   */
  lemma SlugByPreference(reserved: map<string, string>, apis: seq<Api>, i: nat)
    requires i < |apis|
    ensures var all, api := Resolved({}, reserved, apis), apis[i];
            && |all| == |apis| && all[i] == api.(slug := all[i].slug)
            && (Free(reserved, all[..i], api, api.slug) ==> all[i].slug == api.slug)
            && (!Free(reserved, all[..i], api, api.slug) && api.provider.Some? && api.provider.value != api.slug
                && Free(reserved, all[..i], api, api.slug + "-" + api.provider.value)
                ==> all[i].slug == api.slug + "-" + api.provider.value)
            && (forall n {:trigger LeastFree(reserved, all[..i], api, n)} ::
                  OwnSlugsTaken(reserved, all[..i], api) && LeastFree(reserved, all[..i], api, n) ==> all[i].slug == api.slug + "-" + Decimal(n))
            && (OwnSlugsTaken(reserved, all[..i], api) && NoneBelow(reserved, all[..i], api, 51)
                ==> all[i].slug == api.slug + "-" + api.fingerprint[..if |api.fingerprint| < 6 then |api.fingerprint| else 6])
  {
    var all, api := Resolved({}, reserved, apis), apis[i];
    ResolvedAt({}, reserved, apis, i);
    assert {} + SlugsOf(all[..i]) == SlugsOf(all[..i]);
    ByPreference(reserved, all[..i], api);
  }

  lemma ByPreference(reserved: map<string, string>, before: seq<Api>, api: Api)
    ensures var r := RecordOf(api);
            var slug := Pick(SlugsOf(before), reserved, r.options, r);
            && (Free(reserved, before, api, api.slug) ==> slug == api.slug)
            && (!Free(reserved, before, api, api.slug) && api.provider.Some? && api.provider.value != api.slug
                && Free(reserved, before, api, api.slug + "-" + api.provider.value)
                ==> slug == api.slug + "-" + api.provider.value)
            && (forall n {:trigger LeastFree(reserved, before, api, n)} ::
                  OwnSlugsTaken(reserved, before, api) && LeastFree(reserved, before, api, n) ==> slug == api.slug + "-" + Decimal(n))
            && (OwnSlugsTaken(reserved, before, api) && NoneBelow(reserved, before, api, 51)
                ==> slug == api.slug + "-" + api.fingerprint[..if |api.fingerprint| < 6 then |api.fingerprint| else 6])
  {
    var r, claims := RecordOf(api), SlugsOf(before);
    FreeIsNotTaken(reserved, before, api, api.slug);
    if !Free(reserved, before, api, api.slug) && Labelled(api) != [] {
      var slug := api.slug + "-" + api.provider.value;
      FreeIsNotTaken(reserved, before, api, slug);
      if Free(reserved, before, api, slug) {
        assert r.options == [api.slug] + ([slug] + Numbered(api.slug, 50));
        PickFree(claims, reserved, [api.slug], slug, Numbered(api.slug, 50), r);
      }
    }
    if OwnSlugsTaken(reserved, before, api) {
      PickNumber(reserved, before, api);
      FirstFreeNumber(reserved, before, api);
    }
  }

  lemma FirstFreeNumber(reserved: map<string, string>, before: seq<Api>, api: Api)
    ensures forall n {:trigger LeastFree(reserved, before, api, n)} :: LeastFree(reserved, before, api, n) ==>
              Pick(SlugsOf(before), reserved, Numbered(api.slug, 50), RecordOf(api)) == api.slug + "-" + Decimal(n)
    ensures NoneBelow(reserved, before, api, 51)
            ==> Pick(SlugsOf(before), reserved, Numbered(api.slug, 50), RecordOf(api)) == Fallback(api)
  {
    var numbers := Numbered(api.slug, 50);
    NumberedAt(api.slug, 50, 50);
    forall n {:trigger LeastFree(reserved, before, api, n)} | LeastFree(reserved, before, api, n)
      ensures Pick(SlugsOf(before), reserved, numbers, RecordOf(api)) == api.slug + "-" + Decimal(n)
    {
      NumbersTaken(reserved, before, api, n);
      NumberedAt(api.slug, 50, n);
      FreeIsNotTaken(reserved, before, api, numbers[n - 2]);
      assert numbers == numbers[..n - 2] + ([numbers[n - 2]] + numbers[n - 1..]);
      PickFree(SlugsOf(before), reserved, numbers[..n - 2], numbers[n - 2], numbers[n - 1..], RecordOf(api));
    }
    if NoneBelow(reserved, before, api, 51) {
      NumbersTaken(reserved, before, api, 51);
      assert numbers[..49] == numbers;
      PickIsFallback(SlugsOf(before), reserved, numbers, RecordOf(api));
    }
  }

  /** The number that a sequence of digits stands for. */
  ghost function ReadDecimal(digits: string): int {
    if digits == [] then 0 else 10 * ReadDecimal(digits[..|digits| - 1]) + (digits[|digits| - 1] as int - '0' as int)
  }

  lemma DecimalReadsBack(n: nat)
    requires n < 100
    ensures ReadDecimal(Decimal(n)) == n && (forall c <- Decimal(n) :: '0' <= c <= '9') && (n > 0 ==> Decimal(n)[0] != '0')
  {
    var d := Decimal(n);
    var front := d[..|d| - 1];
    assert front == if n < 10 then [] else [Digit(n / 10)];
    if n >= 10 {
      assert front[|front| - 1] == Digit(n / 10) && front[..0] == [];
      assert ReadDecimal(front) == n / 10;
    }
  }

  // ---------- Fifty options ----------

  lemma SuffixesDiffer(slug: string, a: nat, b: nat)
    requires a < b < 100
    ensures slug + "-" + Decimal(a) != slug + "-" + Decimal(b)
  {
    var x, y := slug + "-" + Decimal(a), slug + "-" + Decimal(b);
    if |x| == |y| {
      var n := |slug| + 1;
      assert x[n..] == Decimal(a) && y[n..] == Decimal(b);
      assert Decimal(a)[|Decimal(a)| - 1] == Digit(a % 10) && Decimal(b)[|Decimal(b)| - 1] == Digit(b % 10);
      assert a >= 10 ==> Decimal(a)[0] == Digit(a / 10) && Decimal(b)[0] == Digit(b / 10);
    }
  }

  /** The slug is one of those numbered from 2 on. */
  ghost predicate IsNumbered(slug: string, upTo: nat, s: string)
    requires upTo < 100
  {
    exists n :: 2 <= n <= upTo && s == slug + "-" + Decimal(n)
  }

  lemma {:induction false} OnlyNumbered(slug: string, upTo: nat, s: string)
    requires upTo < 100 && s in Numbered(slug, upTo)
    ensures IsNumbered(slug, upTo, s)
  {
    if s in Numbered(slug, upTo - 1) { OnlyNumbered(slug, upTo - 1, s); }
  }

  lemma LastIsNew(slug: string, upTo: nat)
    requires 2 <= upTo < 100
    ensures slug + "-" + Decimal(upTo) !in Numbered(slug, upTo - 1)
  {
    var last := slug + "-" + Decimal(upTo);
    if last in Numbered(slug, upTo - 1) {
      OnlyNumbered(slug, upTo - 1, last);
      var n :| 2 <= n <= upTo - 1 && last == slug + "-" + Decimal(n);
      SuffixesDiffer(slug, n, upTo);
    }
  }

  lemma {:induction false} SlugIsNotNumbered(slug: string, upTo: nat)
    requires upTo < 100
    ensures slug !in Numbered(slug, upTo)
  {
    if upTo >= 2 {
      SlugIsNotNumbered(slug, upTo - 1);
      assert |slug + "-" + Decimal(upTo)| > |slug|;
    }
  }

  lemma {:induction false} NumberedAreDistinct(slug: string, upTo: nat)
    requires 1 <= upTo < 100
    ensures |Members(Numbered(slug, upTo))| == upTo - 1
  {
    if upTo > 1 {
      var front, last := Numbered(slug, upTo - 1), slug + "-" + Decimal(upTo);
      NumberedAreDistinct(slug, upTo - 1);
      LastIsNew(slug, upTo);
      MembersPush(front, last);
    }
  }

  lemma MembersPush<T>(s: seq<T>, x: T)
    ensures Members(s + [x]) == Members(s) + {x}
  {
  }

  lemma AtLeastFiftyOptions(api: Api)
    ensures |Members(RecordOf(api).options)| >= 50
  {
    NumberedAreDistinct(api.slug, 50);
    SlugIsNotNumbered(api.slug, 50);
    SubsetSize(Members(Numbered(api.slug, 50)) + {api.slug}, Members(RecordOf(api).options));
  }

  lemma {:induction false} RecordAt(apis: seq<Api>, i: nat)
    requires i < |apis|
    ensures RecordsOf(apis)[i] == RecordOf(apis[i])
  {
    if i > 0 { RecordAt(apis[1..], i - 1); }
  }

  lemma {:induction false} RenamedAt(apis: seq<Api>, slugs: seq<string>, i: nat)
    requires i < |apis| == |slugs|
    ensures Renamed(apis, slugs)[i] == apis[i].(slug := slugs[i])
  {
    if i > 0 { RenamedAt(apis[1..], slugs[1..], i - 1); }
  }

  /** The API in the i-th place, and the options of it that belong to others, number less than fifty. */
  ghost predicate FewTaken(reserved: map<string, string>, apis: seq<Api>, i: nat)
    requires i < |apis|
  {
    i + |Blocked(reserved, RecordOf(apis[i]))| < 50
  }

  ghost predicate AllFewTaken(reserved: map<string, string>, apis: seq<Api>) {
    forall i {:trigger FewTaken(reserved, apis, i)} :: 0 <= i < |apis| ==> FewTaken(reserved, apis, i)
  }

  lemma FewTakenPreventsCollisions(reserved: map<string, string>, apis: seq<Api>)
    requires AllFewTaken(reserved, apis)
    ensures NoneCollides({}, reserved, RecordsOf(apis))
  {
    var rs := RecordsOf(apis);
    forall i | 0 <= i < |rs| ensures HasRoom(0 + i, reserved, rs[i]) {
      assert FewTaken(reserved, apis, i);
      RecordAt(apis, i);
      AtLeastFiftyOptions(apis[i]);
    }
    RoomPreventsCollisions({}, reserved, rs, 0);
  }

  lemma {:induction false} DistinctAt<S>(slugs: seq<S>, i: nat, j: nat)
    requires DistinctSlugs(slugs) && i < j < |slugs|
    ensures slugs[i] != slugs[j]
  {
    if i == 0 { assert slugs[j] == slugs[1..][j - 1]; } else { DistinctAt(slugs[1..], i - 1, j - 1); }
  }

  /**
   * With fewer than fifty slugs in the way of each of them, counting one for
   * every API before it, all APIs get different slugs, and none gets a slug
   * that is reserved for another fingerprint.
   */
  lemma SlugsAreUnique(reserved: map<string, string>, apis: seq<Api>, i: nat, j: nat)
    requires AllFewTaken(reserved, apis) && i < j < |apis|
    ensures var r := Resolved({}, reserved, apis);
            r[i].slug != r[j].slug && (r[i].slug in reserved ==> reserved[r[i].slug] == apis[i].fingerprint)
                                   && (r[j].slug in reserved ==> reserved[r[j].slug] == apis[j].fingerprint)
  {
    var rs := RecordsOf(apis);
    var slugs := Resolve({}, reserved, rs);
    FewTakenPreventsCollisions(reserved, apis);
    UniqueExactly({}, reserved, rs);
    DistinctAt(slugs, i, j);
    RenamedAt(apis, slugs, i);
    RenamedAt(apis, slugs, j);
    RecordAt(apis, i);
    RecordAt(apis, j);
    assert Owned({}, reserved, slugs[i], rs[i].fingerprint) && Owned({}, reserved, slugs[j], rs[j].fingerprint);
  }

  /**
   * Importing any of the APIs again, in any order, once the first result is
   * stored gives every one of them its slug again.
   */
  lemma ReimportKeepsSlugs(reserved: map<string, string>, apis: seq<Api>, at: seq<nat>, again: seq<Api>, k: nat)
    requires AllFewTaken(reserved, apis) && DistinctFingerprints(RecordsOf(apis)) && DistinctFingerprints(RecordsOf(again))
    requires |at| == |again| && k < |again|
    requires forall j {:trigger at[j]} :: 0 <= j < |at| ==> at[j] < |apis| && again[j] == apis[at[j]]
    ensures var stored := Extended(reserved, RecordsOf(apis), Resolve({}, reserved, RecordsOf(apis)));
            Resolved({}, stored, again)[k].slug == Resolved({}, reserved, apis)[at[k]].slug
  {
    var rs, qs := RecordsOf(apis), RecordsOf(again);
    var slugs := Resolve({}, reserved, rs);
    var stored := Extended(reserved, rs, slugs);
    FewTakenPreventsCollisions(reserved, apis);
    forall j | 0 <= j < |qs| ensures at[j] < |rs| && qs[j] == rs[at[j]] {
      RecordAt(again, j);
      RecordAt(apis, at[j]);
    }
    ReimportIsStable(reserved, rs, at, qs, k);
    RenamedAt(apis, slugs, at[k]);
    RenamedAt(again, Resolve({}, stored, qs), k);
  }

  // ---------- What exhaustion does ----------

  /**
   * When every option of a slug belongs to others, two records with that slug
   * whose fingerprints begin with the same six characters get the same slug.
   */
  lemma ExhaustedRecordsCollide(a: Api, b: Api, owner: string)
    requires a.slug == b.slug && a.provider == b.provider && Fallback(a) == Fallback(b)
    requires owner != a.fingerprint && owner != b.fingerprint
    ensures var reserved := map s | s in RecordOf(a).options :: owner;
            Resolve({}, reserved, [RecordOf(a), RecordOf(b)]) == [Fallback(a), Fallback(a)]
  {
    var ra, rb := RecordOf(a), RecordOf(b);
    var reserved := map s | s in ra.options :: owner;
    PickIsFallback({}, reserved, ra.options, ra);
    PickIsFallback({} + {Fallback(a)}, reserved, rb.options, rb);
    assert [ra, rb][1..] == [rb];
    assert Resolve({} + {Fallback(a)}, reserved, [rb]) == [Fallback(a)];
  }
}
