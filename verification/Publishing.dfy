/**
 * Publication of releases (tools/ota/publish.py): concurrent runs promote a channel file and the relay catalog
 * with single-commit compare-and-swap writes.
 */
module Publishing {
  import opened Options
  import opened Unicode

  type Text = seq<nat>

  /** product, board, profile, channel and layout */
  type Identity = seq<Text>

  datatype Entry = Entry(identity: Identity, version: Text, counter: nat, url: Text)

  /** The signed manifest in a channel file, as far as publication reads it. */
  datatype Payload = Payload(identity: Identity, version: Text, release: nat)

  /** Checks on the text of one entry and on the size of the whole file, which merging does not look into. */
  datatype Syntax = Syntax(entryOk: Entry -> bool, fits: seq<Entry> -> bool)

  // ------------------------------------------------------------------ catalog

  predicate Distinct(releases: seq<Entry>) {
    forall i, j :: 0 <= i < j < |releases| ==> releases[i].identity != releases[j].identity
  }

  /** A catalog the publisher and the relay take: at most 64 entries in order, one for each identity. */
  predicate ValidCatalog(releases: seq<Entry>, syntax: Syntax) {
    && |releases| <= 64 && Distinct(releases)
    && (forall i :: 0 <= i < |releases| ==> syntax.entryOk(releases[i]))
    && syntax.fits(releases)
  }

  /** validate_catalog */
  method ValidateCatalog(releases: seq<Entry>, syntax: Syntax) returns (ok: bool)
    ensures ok <==> ValidCatalog(releases, syntax)
  {
    if |releases| > 64 {
      return false;
    }
    var seen: set<Identity> := {};
    for i := 0 to |releases|
      invariant Distinct(releases[..i]) && forall k :: 0 <= k < i ==> syntax.entryOk(releases[k])
      invariant forall id :: id in seen <==> exists k :: 0 <= k < i && releases[k].identity == id
    {
      if !syntax.entryOk(releases[i]) || releases[i].identity in seen {
        return false;
      }
      seen := seen + {releases[i].identity};
    }
    assert releases[..|releases|] == releases;
    return syntax.fits(releases);
  }

  /** Python's order of tuples of strings. */
  predicate Before(a: Identity, b: Identity) {
    b != [] && (a == [] || Less(a[0], b[0]) || (a[0] == b[0] && Before(a[1..], b[1..])))
  }

  /** The first text in which two identities differ decides, by its first differing character. */
  lemma {:induction false} BeforeAtDifference(a: Identity, b: Identity, i: nat, k: nat)
    requires i < |a| && i < |b| && a[..i] == b[..i] && a[i] != b[i]
    requires k < |a[i]| && k < |b[i]| && a[i][..k] == b[i][..k] && a[i][k] != b[i][k]
    ensures Before(a, b) <==> a[i][k] < b[i][k]
  {
    if i == 0 {
      LessAtDifference(a[0], b[0], k);
    } else {
      assert a[0] == a[..i][0] == b[..i][0] == b[0];
      assert a[1..][..i - 1] == a[..i][1..] == b[..i][1..] == b[1..][..i - 1];
      LessIsTotal(a[0], b[0]);
      BeforeAtDifference(a[1..], b[1..], i - 1, k);
    }
  }

  lemma {:induction false} BeforeIsTotal(a: Identity, b: Identity)
    ensures a != b ==> Before(a, b) || Before(b, a)
    ensures !(Before(a, b) && Before(b, a))
  {
    if a != [] && b != [] {
      LessIsTotal(a[0], b[0]);
      BeforeIsTotal(a[1..], b[1..]);
      assert a[0] == b[0] && a[1..] == b[1..] ==> a == [a[0]] + a[1..] && b == [b[0]] + b[1..];
    }
  }

  lemma {:induction false} BeforeIsTransitive(a: Identity, b: Identity, c: Identity)
    requires Before(a, b) && Before(b, c)
    ensures Before(a, c)
  {
    if a != [] {
      if Less(a[0], b[0]) && Less(b[0], c[0]) {
        LessIsTransitive(a[0], b[0], c[0]);
      } else if a[0] == b[0] == c[0] {
        BeforeIsTransitive(a[1..], b[1..], c[1..]);
      }
    }
  }

  predicate Sorted(releases: seq<Entry>) {
    forall i, j :: 0 <= i < j < |releases| ==> Before(releases[i].identity, releases[j].identity)
  }

  ghost predicate SameEntries(a: seq<Entry>, b: seq<Entry>) { |a| == |b| && forall e :: e in a <==> e in b }

  /** What a merge makes of a catalog: the tuple's entry is the new one, all others are as they were. */
  ghost predicate Merged(old_: seq<Entry>, entry: Entry, new_: seq<Entry>) {
    && Distinct(new_) && Sorted(new_)
    && forall e :: e in new_ <==> e == entry || (e in old_ && e.identity != entry.identity)
  }

  predicate Newer(releases: seq<Entry>, entry: Entry) {
    forall i :: 0 <= i < |releases| && releases[i].identity == entry.identity ==> releases[i].counter < entry.counter
  }

  method InsertSorted(releases: seq<Entry>, entry: Entry) returns (r: seq<Entry>)
    requires Sorted(releases) && forall i :: 0 <= i < |releases| ==> releases[i].identity != entry.identity
    ensures Sorted(r) && |r| == |releases| + 1 && forall e :: e in r <==> e == entry || e in releases
  {
    hide Before;
    var k := 0;
    while k < |releases| && Before(releases[k].identity, entry.identity)
      invariant k <= |releases| && forall i :: 0 <= i < k ==> Before(releases[i].identity, entry.identity)
    {
      k := k + 1;
    }
    forall i | k <= i < |releases| ensures Before(entry.identity, releases[i].identity) {
      BeforeIsTotal(entry.identity, releases[k].identity);
      if i > k {
        BeforeIsTransitive(entry.identity, releases[k].identity, releases[i].identity);
      }
    }
    r := releases[..k] + [entry] + releases[k..];
    Inserted(releases, k, entry, r);
  }

  lemma Inserted(releases: seq<Entry>, k: nat, entry: Entry, r: seq<Entry>)
    requires k <= |releases| && r == releases[..k] + [entry] + releases[k..] && Sorted(releases)
    requires forall i :: 0 <= i < k ==> Before(releases[i].identity, entry.identity)
    requires forall i :: k <= i < |releases| ==> Before(entry.identity, releases[i].identity)
    ensures Sorted(r) && forall e :: e in r <==> e == entry || e in releases
  {
    hide Before;
    assert releases == releases[..k] + releases[k..];
    InsertedSorted(releases, k, entry, r);
  }

  lemma InsertedSorted(releases: seq<Entry>, k: nat, entry: Entry, r: seq<Entry>)
    requires k <= |releases| && r == releases[..k] + [entry] + releases[k..] && Sorted(releases)
    requires forall i :: 0 <= i < k ==> Before(releases[i].identity, entry.identity)
    requires forall i :: k <= i < |releases| ==> Before(entry.identity, releases[i].identity)
    ensures Sorted(r)
  {
    hide Before;
    forall i, j | 0 <= i < j < |r| ensures Before(r[i].identity, r[j].identity) {
      assert r[i] == if i < k then releases[i] else if i == k then entry else releases[i - 1];
      assert r[j] == if j < k then releases[j] else if j == k then entry else releases[j - 1];
    }
  }

  /** list.sort by identity; identities are distinct, so the order is determined. */
  method SortByIdentity(releases: seq<Entry>) returns (r: seq<Entry>)
    requires Distinct(releases)
    ensures Sorted(r) && SameEntries(r, releases)
  {
    r := [];
    for i := 0 to |releases|
      invariant Sorted(r) && SameEntries(r, releases[..i])
    {
      forall k | 0 <= k < |r| ensures r[k].identity != releases[i].identity {
        assert r[k] in releases[..i];
      }
      r := InsertSorted(r, releases[i]);
      assert releases[..i + 1] == releases[..i] + [releases[i]];
    }
    assert releases[..|releases|] == releases;
  }

  /** merge_catalog goes through: both catalogs are valid and the release is newer. */
  ghost predicate Mergeable(catalog: seq<Entry>, entry: Entry, syntax: Syntax) {
    && ValidCatalog(catalog, syntax) && Newer(catalog, entry)
    && exists merged :: Merged(catalog, entry, merged) && ValidCatalog(merged, syntax)
  }

  /** merge_catalog; None is the ValueError. */
  method MergeCatalog(catalog: seq<Entry>, payload: Payload, url: Text, syntax: Syntax) returns (r: Option<seq<Entry>>)
    ensures var entry := Entry(payload.identity, payload.version, payload.release, url);
      && (r.Some? <==> Mergeable(catalog, entry, syntax))
      && (r.Some? ==> ValidCatalog(r.value, syntax) && Merged(catalog, entry, r.value))
  {
    var valid := ValidateCatalog(catalog, syntax);
    if !valid {
      return None;
    }
    var entry := Entry(payload.identity, payload.version, payload.release, url);
    var index := 0;
    while index < |catalog| && catalog[index].identity != entry.identity
      invariant index <= |catalog| && forall i :: 0 <= i < index ==> catalog[i].identity != entry.identity
    {
      index := index + 1;
    }
    var releases := catalog;
    if index < |catalog| {
      if catalog[index].counter >= entry.counter {
        return None;
      }
      releases := releases[index := entry];
    } else {
      releases := releases + [entry];
    }
    Replaced(catalog, index, entry, releases);
    releases := SortByIdentity(releases);
    SortedIsDistinct(releases);
    valid := ValidateCatalog(releases, syntax);
    if !valid {
      forall new_ | Merged(catalog, entry, new_) ensures new_ == releases {
        MergeIsUnique(new_, releases);
      }
      return None;
    }
    return Some(releases);
  }

  lemma Replaced(catalog: seq<Entry>, index: nat, entry: Entry, releases: seq<Entry>)
    requires Distinct(catalog) && index <= |catalog| && forall i :: 0 <= i < index ==>
      catalog[i].identity != entry.identity
    requires index < |catalog| ==> catalog[index].identity == entry.identity && releases == catalog[index := entry]
    requires index == |catalog| ==> releases == catalog + [entry]
    ensures Distinct(releases)
    ensures forall e :: e in releases <==> e == entry || (e in catalog && e.identity != entry.identity)
  {
    forall e | e in catalog && e.identity != entry.identity ensures e in releases {
      var i :| 0 <= i < |catalog| && catalog[i] == e;
      assert releases[i] == e;
    }
    assert entry in releases by {
      assert releases[index] == entry;
    }
  }

  lemma SortedIsDistinct(releases: seq<Entry>)
    requires Sorted(releases)
    ensures Distinct(releases)
  {
    forall i, j | 0 <= i < j < |releases| ensures releases[i].identity != releases[j].identity {
      BeforeIsTotal(releases[i].identity, releases[j].identity);
    }
  }

  /** A sorted catalog is determined by its entries. */
  lemma {:induction false} MergeIsUnique(a: seq<Entry>, b: seq<Entry>)
    requires Sorted(a) && Sorted(b) && forall e :: e in a <==> e in b
    ensures a == b
    decreases |a|
  {
    assert b != [] ==> b[0] in b;
    if a != [] {
      assert a[0] in b;
      assert b != [] && b[0] in a;
      BeforeIsTotal(a[0].identity, b[0].identity);
      FirstIsLeast(a, b[0]);
      FirstIsLeast(b, a[0]);
      SameTails(a, b);
      MergeIsUnique(a[1..], b[1..]);
      assert a == [a[0]] + a[1..] && b == [b[0]] + b[1..];
    }
  }

  lemma FirstIsLeast(a: seq<Entry>, e: Entry)
    requires Sorted(a) && e in a
    ensures e == a[0] || Before(a[0].identity, e.identity)
  {}

  lemma SameTails(a: seq<Entry>, b: seq<Entry>)
    requires Sorted(a) && Sorted(b) && a != [] && b != [] && a[0] == b[0] && forall e :: e in a <==> e in b
    ensures forall e :: e in a[1..] <==> e in b[1..]
  {
    SortedIsDistinct(a);
    SortedIsDistinct(b);
    forall e ensures e in a[1..] <==> e in b[1..] {
      assert e in a[1..] <==> e in a && e != a[0];
      assert e in b[1..] <==> e in b && e != b[0];
    }
  }

  // -------------------------------------------------------------- concurrent runs

  /** Shared files on the branch; a content's hash stands for the content. */
  datatype Files = Files(channels: map<Identity, Payload>, catalog: Option<seq<Entry>>) {
    function Releases(): seq<Entry> { if catalog.Some? then catalog.value else [] }

    /** Every catalog entry announces a release its channel has reached. */
    ghost predicate Backed() {
      && (forall k :: k in channels ==> channels[k].identity == k)
      && Distinct(Releases())
      && forall e :: e in Releases() ==> e.identity in channels && e.counter <= channels[e.identity].release
    }
  }

  /** Nothing published is taken back: channel releases and catalog counters only rise, and no tuple is lost. */
  ghost predicate Advances(a: Files, b: Files) {
    && (forall k :: k in a.channels ==> k in b.channels && a.channels[k].release <= b.channels[k].release)
    && (forall e :: e in a.Releases() ==>
         exists f :: f in b.Releases() && f.identity == e.identity && e.counter <= f.counter)
  }

  lemma AdvancesTransitive(a: Files, b: Files, c: Files)
    requires Advances(a, b) && Advances(b, c)
    ensures Advances(a, c)
  {
    forall e | e in a.Releases()
      ensures exists f :: f in c.Releases() && f.identity == e.identity && e.counter <= f.counter
    {
      var f :| f in b.Releases() && f.identity == e.identity && e.counter <= f.counter;
      var g :| g in c.Releases() && g.identity == f.identity && f.counter <= g.counter;
    }
  }

  lemma AdvancesReflexive(a: Files)
    ensures Advances(a, a)
  {}

  /** Where a run of publish stands, and what it has read. */
  datatype Stage =
    | Begin
    | ChannelRead(previous: Option<Payload>)
    | Released(previous: Option<Payload>)    // the versioned release is public
    | Promoted(attempt: nat)
    | CatalogRead(attempt: nat, prior: Option<seq<Entry>>)
    | Finished
    | Stopped

  datatype Run = Run(payload: Payload, url: Text, stage: Stage) {
    ghost predicate Ok(files: Files) {
      match stage
      case ChannelRead(previous) => previous.Some? ==> previous.value.release < payload.release
      case Released(previous) => previous.Some? ==> previous.value.release < payload.release
      case Promoted(attempt) => Reached(files) && attempt < 3
      case CatalogRead(attempt, _) => Reached(files) && attempt < 3
      case _ => true
    }

    /** The catalog entry of the release. */
    function Announcement(): Entry { Entry(payload.identity, payload.version, payload.release, url) }

    predicate Reached(files: Files) {
      payload.identity in files.channels && payload.release <= files.channels[payload.identity].release
    }
  }

  const ATTEMPTS := 3

  /** What a channel file holds. */
  function Published(files: Files, identity: Identity): Option<Payload> {
    if identity in files.channels then Some(files.channels[identity]) else None
  }

  class Branch {
    var files: Files
    var runs: seq<Run>
    const syntax: Syntax
    ghost var history: seq<Files>

    ghost predicate Inv()
      reads this
    {
      && files.Backed()
      && (forall i :: 0 <= i < |runs| ==> runs[i].Ok(files))
      && History(history, files)
    }

    constructor (payloads: seq<(Payload, Text)>, checks: Syntax)
      ensures Inv() && |runs| == |payloads|
    {
      files := Files(map[], None);
      runs := seq(|payloads|, i requires 0 <= i < |payloads| => Run(payloads[i].0, payloads[i].1, Begin));
      syntax := checks;
      history := [Files(map[], None)];
    }

    /** Only run i made a step. */
    twostate predicate OthersWait(i: nat)
      reads this
    {
      && |runs| == |old(runs)| && i < |runs| && runs[i] == old(runs)[i].(stage := runs[i].stage)
      && runs == old(runs)[i := runs[i]]
    }

    method Move(i: nat, stage: Stage)
      requires Inv() && i < |runs| && runs[i].(stage := stage).Ok(files)
      modifies this`runs
      ensures Inv() && runs == old(runs)[i := old(runs)[i].(stage := stage)]
    {
      runs := runs[i := runs[i].(stage := stage)];
    }

    /** Reads the channel file and refuses a release that is not newer. */
    method ReadChannel(i: nat)
      requires Inv() && i < |runs| && runs[i].stage.Begin?
      modifies this`runs
      ensures Inv() && OthersWait(i)
      ensures var p := runs[i].payload;
        if p.identity in files.channels && files.channels[p.identity].release >= p.release then runs[i].stage.Stopped?
        else runs[i].stage == ChannelRead(Published(files, p.identity))
    {
      var p := runs[i].payload;
      var previous := Published(files, p.identity);
      if previous.Some? && p.release <= previous.value.release {
        Move(i, Stopped);
      } else {
        Move(i, ChannelRead(previous));
      }
    }

    /** Tries the merge on the catalog as it is, then creates, checks and publishes the release, if GitHub lets it. */
    method CreateRelease(i: nat, created: bool)
      requires Inv() && i < |runs| && runs[i].stage.ChannelRead?
      modifies this`runs
      ensures Inv() && OthersWait(i)
      ensures runs[i].stage in {Stopped, Released(old(runs)[i].stage.previous)}
      ensures runs[i].stage.Released? <==> created && Mergeable(files.Releases(), runs[i].Announcement(), syntax)
    {
      var merged := MergeCatalog(files.Releases(), runs[i].payload, runs[i].url, syntax);
      if merged.Some? && created {
        Move(i, Released(runs[i].stage.previous));
      } else {
        Move(i, Stopped);
      }
    }

    /** The compare-and-swap of the channel file: it succeeds only on the content read before. */
    method PromoteChannel(i: nat, sent: bool)
      requires Inv() && i < |runs| && runs[i].stage.Released?
      modifies this`runs, this`files, this`history
      ensures Inv() && OthersWait(i) && Advances(old(files), files) && files.catalog == old(files).catalog
      ensures runs[i].stage in {Stopped, Promoted(0)}
      ensures var p := runs[i].payload;
        && (runs[i].stage.Promoted? <==> sent && Published(old(files), p.identity) == old(runs)[i].stage.previous)
        && files.channels == (if runs[i].stage.Promoted? then old(files).channels[p.identity := p]
                              else old(files).channels)
    {
      var p, previous := runs[i].payload, runs[i].stage.previous;
      var current := Published(files, p.identity);
      AdvancesReflexive(files);
      if !sent || current != previous {
        Move(i, Stopped);
        return;
      }
      ghost var was := files;
      files := files.(channels := files.channels[p.identity := p]);
      runs := runs[i := runs[i].(stage := Promoted(0))];
      ChannelAdvances(was, p);
      Extend(history, was, files);
      history := history + [files];
      StillOk(old(runs)[i := runs[i]], was, files, i);
    }

    /** One read of the catalog in promote_catalog. */
    method ReadCatalog(i: nat)
      requires Inv() && i < |runs| && runs[i].stage.Promoted?
      modifies this`runs
      ensures Inv() && OthersWait(i) && runs[i].stage == CatalogRead(old(runs)[i].stage.attempt, files.catalog)
    {
      Move(i, CatalogRead(runs[i].stage.attempt, files.catalog));
    }

    /** Merge and compare-and-swap; a conflict is retried from a fresh read, three times in all. */
    method PromoteCatalog(i: nat, sent: bool)
      requires Inv() && i < |runs| && runs[i].stage.CatalogRead?
      modifies this`runs, this`files, this`history
      ensures Inv() && OthersWait(i) && Advances(old(files), files) && files.channels == old(files).channels
      ensures var (was, now) := (old(runs)[i].stage, runs[i].stage);
        var tried := sent && Mergeable(if was.prior.Some? then was.prior.value else [], runs[i].Announcement(), syntax);
        && (now.Finished? <==> tried && old(files).catalog == was.prior)
        && (now.Promoted? <==> tried && old(files).catalog != was.prior && was.attempt < 2)
        && (now in {Stopped, Finished, Promoted(was.attempt + 1)})
        && (if now.Finished? then Merged(old(files).Releases(), runs[i].Announcement(), files.Releases())
            else files == old(files))
    {
      hide Merged, Newer, Advances, Distinct;
      var run := runs[i];
      var prior := run.stage.prior;
      var base := if prior.Some? then prior.value else [];
      AdvancesReflexive(files);
      var merged := MergeCatalog(base, run.payload, run.url, syntax);
      if merged.None? || !sent {
        Move(i, Stopped);
        return;
      }
      if files.catalog != prior {
        if run.stage.attempt + 1 == ATTEMPTS {
          Move(i, Stopped);
        } else {
          Move(i, Promoted(run.stage.attempt + 1));
        }
        return;
      }
      Announce(i, merged.value);
    }

    /** The write that went through. */
    method Announce(i: nat, releases: seq<Entry>)
      requires Inv() && i < |runs| && runs[i].Reached(files)
      requires Merged(files.Releases(), runs[i].Announcement(), releases)
        && Newer(files.Releases(), runs[i].Announcement())
      modifies this`runs, this`files, this`history
      ensures Inv() && Advances(old(files), files)
      ensures files == old(files).(catalog := Some(releases))
        && runs == old(runs)[i := old(runs)[i].(stage := Finished)]
    {
      ghost var was := files;
      CatalogAdvances(was, runs[i].Announcement(), releases);
      files := files.(catalog := Some(releases));
      runs := runs[i := runs[i].(stage := Finished)];
      Extend(history, was, files);
      history := history + [files];
      StillOk(runs, was, files, i);
    }

    /** Any interleaving of any number of runs. */
    method Interleave(steps: nat)
      requires Inv()
      modifies this
      ensures files.Backed() && forall i, j :: 0 <= i <= j < |history| ==> Advances(history[i], history[j])
    {
      hide Advances;
      for k := 0 to steps
        invariant Inv()
      {
        var i: nat := 0;
        if |runs| > 0 {
          i :| 0 <= i < |runs|;
          var done := *; // whether the request goes through
          match runs[i].stage
          case Begin => ReadChannel(i);
          case ChannelRead(_) => CreateRelease(i, done);
          case Released(_) => PromoteChannel(i, done);
          case Promoted(_) => ReadCatalog(i);
          case CatalogRead(_, _) => PromoteCatalog(i, done);
          case _ =>
        }
      }
    }
  }

  /** A run with the branch to itself publishes a newer release, if every request goes through. */
  method PublishAlone(b: Branch, i: nat)
    requires b.Inv() && i < |b.runs| && b.runs[i].stage.Begin? && !b.runs[i].Reached(b.files)
    requires Mergeable(b.files.Releases(), b.runs[i].Announcement(), b.syntax)
    modifies b
    ensures b.Inv() && |b.runs| == |old(b.runs)| && b.runs[i] == old(b.runs[i]).(stage := Finished)
    ensures var p := old(b.runs[i]).payload; b.files.channels == old(b.files).channels[p.identity := p]
    ensures Merged(old(b.files).Releases(), old(b.runs[i]).Announcement(), b.files.Releases())
  {
    hide Branch.Inv, Mergeable, Merged, Advances;
    b.ReadChannel(i);
    b.CreateRelease(i, true);
    b.PromoteChannel(i, true);
    b.ReadCatalog(i);
    b.PromoteCatalog(i, true);
  }

  ghost predicate History(history: seq<Files>, files: Files) {
    && history != [] && history[|history| - 1] == files
    && forall i, j :: 0 <= i <= j < |history| ==> Advances(history[i], history[j])
  }

  lemma Extend(history: seq<Files>, was: Files, files: Files)
    requires History(history, was) && Advances(was, files)
    ensures History(history + [files], files)
  {
    hide Advances;
    AdvancesReflexive(files);
    var h := history + [files];
    forall i, j | 0 <= i <= j < |h| ensures Advances(h[i], h[j]) {
      if j == |history| && i < j {
        AdvancesTransitive(h[i], was, files);
      }
    }
  }

  lemma StillOk(runs: seq<Run>, was: Files, files: Files, i: nat)
    requires Advances(was, files) && i < |runs| && runs[i].Ok(files)
    requires forall k :: 0 <= k < |runs| && k != i ==> runs[k].Ok(was)
    ensures forall k :: 0 <= k < |runs| ==> runs[k].Ok(files)
  {}

  lemma ChannelAdvances(was: Files, p: Payload)
    requires was.Backed() && (p.identity in was.channels ==> was.channels[p.identity].release < p.release)
    ensures var files := was.(channels := was.channels[p.identity := p]); files.Backed() && Advances(was, files)
  {
    var files := was.(channels := was.channels[p.identity := p]);
    assert files.Releases() == was.Releases();
  }

  lemma CatalogAdvances(was: Files, entry: Entry, releases: seq<Entry>)
    requires was.Backed() && Merged(was.Releases(), entry, releases) && Newer(was.Releases(), entry)
    requires entry.identity in was.channels && entry.counter <= was.channels[entry.identity].release
    ensures var files := was.(catalog := Some(releases)); files.Backed() && Advances(was, files)
  {
    var files := was.(catalog := Some(releases));
    forall e | e in was.Releases()
      ensures exists f :: f in files.Releases() && f.identity == e.identity && e.counter <= f.counter
    {
      var f := if e.identity == entry.identity then entry else e;
      assert f in files.Releases();
    }
  }
}
