/**
  The three request paths of app.py: startup (a full sync, then one
  generation over an empty pool), `/shorten` (take a code, store the link)
  and `/{code}` (look the link up in the local tier); and shutdown, which
  waits for the queued replication tasks.
  HTTP framing, the response bodies and the connection pool are not modelled.
 */
module App {
  import opened Wrappers
  import Store
  import CodePool

  /** The HTTP errors the handlers raise, and an exception passed through. */
  datatype HttpError =
    | NoAvailableCodes             // 500 when the code returned is falsy
    | NotFound                     // 404 when the link looked up is falsy
    | Raised(cause: CodePool.Error)  // an exception from the code pool, not caught

  /**
    `startup_event`: the local tier is overwritten from the remote one, then
    codes are generated; the module-level pool of a fresh process is empty.
   */
  function Startup(db: Store.Db): (r: CodePool.Run<()>)
    requires CodePool.CanGenerate(Store.FullSync(db))
  {
    var synced := Store.FullSync(db);
    CodePool.GenerateCodesIfNeeded(CodePool.State([], synced))
  }

  /**
    `shorten_url`: a fresh code is taken from the pool and bound to `link`.
    A falsy (empty) code is answered with 500; an exception from the pool
    propagates.
   */
  function Shorten(s: CodePool.State, link: string, choice: nat): (r: (CodePool.State, Result<string, HttpError>))
    requires |s.codes| >= CodePool.LowWatermark || CodePool.CanGenerate(s.db)
  {
    var got := CodePool.GetCodeForNewUrl(s, choice);
    if got.result.Failure? then
      (got.state, Failure(Raised(got.result.error)))
    else
      var code := got.result.value;
      if code == "" then
        (got.state, Failure(NoAvailableCodes))
      else
        (got.state.(db := Store.InsertUrl(got.state.db, code, link)), Success(code))
  }

  /** `redirect_to_url`: the stored link, read from the local tier; unknown or empty links are 404. */
  function Redirect(db: Store.Db, code: string): (r: Result<string, HttpError>)
    ensures r.Success? <==> Store.GetLink(db.local, code).Some? && Store.GetLink(db.local, code).value != ""
    ensures r.Success? ==> Store.GetLink(db.local, code) == Some(r.value)
    ensures r.Failure? ==> r.error == NotFound
  {
    match Store.GetLink(db.local, code)
    case None => Failure(NotFound)
    case Some(link) => if link == "" then Failure(NotFound) else Success(link)
  }

  /** One `/shorten` request after another, with the links and random draws given. */
  function ShortenAll(s: CodePool.State, links: seq<string>, choices: seq<nat>): (r: (CodePool.State, seq<Result<string, HttpError>>))
    requires |links| == |choices|
    requires CodePool.CanGenerate(s.db)
    ensures |r.1| == |links|
    ensures CodePool.StoredMax(r.0.db) >= CodePool.StoredMax(s.db)
    ensures CodePool.CanGenerate(r.0.db)
    decreases |links|
  {
    if links == [] then (s, [])
    else
      ShortenCounter(s, links[0], choices[0]);
      ShortenKeepsCanGenerate(s, links[0], choices[0]);
      var (s', first) := Shorten(s, links[0], choices[0]);
      var (s'', rest) := ShortenAll(s', links[1..], choices[1..]);
      (s'', [first] + rest)
  }

  // ----- properties -----

  /** A `/shorten` request never lowers the stored counter. */
  lemma ShortenCounter(s: CodePool.State, link: string, choice: nat)
    requires |s.codes| >= CodePool.LowWatermark || CodePool.CanGenerate(s.db)
    ensures CodePool.StoredMax(Shorten(s, link, choice).0.db) >= CodePool.StoredMax(s.db)
  {
    if |s.codes| < CodePool.LowWatermark && CodePool.GenerateCodesIfNeeded(s).result.Success? {
      CodePool.GenerateCounter(s);
    }
  }

  /**
    A `/shorten` request only adds to the url table: every code bound before
    keeps its link, because generation writes only the counter and
    `insert_url` never overwrites a bound code.
   */
  lemma ShortenKeepsLinks(s: CodePool.State, link: string, choice: nat, code: string)
    requires |s.codes| >= CodePool.LowWatermark || CodePool.CanGenerate(s.db)
    ensures var s' := Shorten(s, link, choice).0;
      && s.db.local.url.Keys <= s'.db.local.url.Keys
      && (code in s.db.local.url ==> Store.GetLink(s'.db.local, code) == Store.GetLink(s.db.local, code))
  {
    CodePool.GetCodeRegeneratesIff(s, choice);
    var got := CodePool.GetCodeForNewUrl(s, choice);
    if got.state.db != s.db {
      CodePool.GenerateWritesOnlyCounter(s);
    }
    assert got.state.db.local.url == s.db.local.url;
  }

  /**
    A run of requests stays within what `generate_codes_if_needed` handles:
    the counter does not drop and no bound code is lost.
   */
  lemma ShortenKeepsCanGenerate(s: CodePool.State, link: string, choice: nat)
    requires CodePool.CanGenerate(s.db)
    ensures CodePool.CanGenerate(Shorten(s, link, choice).0.db)
  {
    ShortenCounter(s, link, choice);
    ShortenKeepsLinks(s, link, choice, "");
  }

  /**
    In the steady state a `/shorten` request succeeds: the code it returns
    was bound to no link before, is bound to `link` afterwards, and every
    other code keeps its link; the steady state holds again.
   */
  lemma ShortenBinds(s: CodePool.State, link: string, choice: nat)
    requires CodePool.Consistent(s)
    ensures var (s', r) := Shorten(s, link, choice);
      && r.Success?
      && r.value !in s.db.local.url
      && Store.GetLink(s'.db.local, r.value) == Some(link)
      && (forall c :: c != r.value ==> Store.GetLink(s'.db.local, c) == Store.GetLink(s.db.local, c))
      && CodePool.Consistent(s')
  {
    CodePool.GetCodeKeepsConsistent(s, choice);
    CodePool.GetCodeNeverEmpty(s, choice);
    var got := CodePool.GetCodeForNewUrl(s, choice);
    var code := got.result.value;
    BindKeepsConsistent(got.state, code, link);
  }

  /** Binding a fresh, issued, unpooled code keeps the steady state. */
  lemma BindKeepsConsistent(st: CodePool.State, code: string, link: string)
    requires CodePool.Consistent(st)
    requires code !in st.db.local.url && code !in st.codes && CodePool.Issued(code, st.db)
    ensures CodePool.Consistent(st.(db := Store.InsertUrl(st.db, code, link)))
  {
    var st' := st.(db := Store.InsertUrl(st.db, code, link));
    assert CodePool.Used(st'.db) == CodePool.Used(st.db) + {code};
    assert CodePool.FirstMax(st'.db) == CodePool.FirstMax(st.db);
  }

  /** A link just shortened redirects from its code, unless the link is empty. */
  lemma ShortenThenRedirect(s: CodePool.State, link: string, choice: nat)
    requires CodePool.Consistent(s)
    ensures var (s', r) := Shorten(s, link, choice);
      r.Success? && Redirect(s'.db, r.value) == if link == "" then Failure(NotFound) else Success(link)
  {
    ShortenBinds(s, link, choice);
  }

  /** Every request keeps the two tiers in step through the queue. */
  lemma ShortenKeepsReplicated(s: CodePool.State, link: string, choice: nat)
    requires |s.codes| >= CodePool.LowWatermark || CodePool.CanGenerate(s.db)
    requires Store.Replicated(s.db)
    ensures Store.Replicated(Shorten(s, link, choice).0.db)
  {
    CodePool.GetCodeKeepsReplicated(s, choice);
    var got := CodePool.GetCodeForNewUrl(s, choice);
    if got.result.Success? && got.result.value != "" {
      Store.WritePreservesReplicated(got.state.db, Store.InsertUrlTask(got.result.value, link));
    }
  }

  /**
    From the steady state, a run of `/shorten` requests all succeed and hand
    out pairwise distinct codes, none bound before; afterwards each code is
    bound to its own link and the steady state holds.
   */
  lemma {:induction false} ShortenAllDistinct(s: CodePool.State, links: seq<string>, choices: seq<nat>)
    requires |links| == |choices|
    requires CodePool.Consistent(s)
    ensures var (s', rs) := ShortenAll(s, links, choices);
      && (forall i :: 0 <= i < |rs| ==> rs[i].Success?)
      && (forall i :: 0 <= i < |rs| ==> rs[i].value !in s.db.local.url)
      && (forall i, j :: 0 <= i < j < |rs| ==> rs[i].value != rs[j].value)
      && (forall i :: 0 <= i < |rs| ==> Store.GetLink(s'.db.local, rs[i].value) == Some(links[i]))
      && CodePool.Consistent(s')
    decreases |links|
  {
    if links != [] {
      ShortenBinds(s, links[0], choices[0]);
      var (s1, first) := Shorten(s, links[0], choices[0]);
      ShortenAllDistinct(s1, links[1..], choices[1..]);
      var (s', rest) := ShortenAll(s1, links[1..], choices[1..]);
      assert ShortenAll(s, links, choices) == (s', [first] + rest);
      ShortenAllKeepsLinks(s1, links[1..], choices[1..], first.value);
      Prepend(first, rest, links, s.db.local, s1.db.local, s'.db.local);
    }
  }

  /** The induction step of `ShortenAllDistinct`, on the results alone. */
  lemma Prepend(first: Result<string, HttpError>, rest: seq<Result<string, HttpError>>, links: seq<string>,
                before: Store.Tables, mid: Store.Tables, after: Store.Tables)
    requires |links| == |rest| + 1
    requires first.Success? && first.value !in before.url && first.value in mid.url
    requires before.url.Keys <= mid.url.Keys
    requires Store.GetLink(after, first.value) == Some(links[0])
    requires forall i :: 0 <= i < |rest| ==> rest[i].Success? && rest[i].value !in mid.url
    requires forall i, j :: 0 <= i < j < |rest| ==> rest[i].value != rest[j].value
    requires forall i :: 0 <= i < |rest| ==> Store.GetLink(after, rest[i].value) == Some(links[1..][i])
    ensures var rs := [first] + rest;
      && (forall i :: 0 <= i < |rs| ==> rs[i].Success? && rs[i].value !in before.url)
      && (forall i, j :: 0 <= i < j < |rs| ==> rs[i].value != rs[j].value)
      && (forall i :: 0 <= i < |rs| ==> Store.GetLink(after, rs[i].value) == Some(links[i]))
  {
    var rs := [first] + rest;
    forall i | 0 <= i < |rs|
      ensures rs[i].Success? && rs[i].value !in before.url
      ensures Store.GetLink(after, rs[i].value) == Some(links[i])
    {
      if i > 0 {
        assert rs[i] == rest[i - 1] && links[i] == links[1..][i - 1];
      }
    }
    forall i, j | 0 <= i < j < |rs|
      ensures rs[i].value != rs[j].value
    {
      assert rs[j] == rest[j - 1];
      if i > 0 {
        assert rs[i] == rest[i - 1];
      }
    }
  }

  /** A code bound before a run of requests keeps its link. */
  lemma {:induction false} ShortenAllKeepsLinks(s: CodePool.State, links: seq<string>, choices: seq<nat>, code: string)
    requires |links| == |choices|
    requires CodePool.CanGenerate(s.db)
    requires code in s.db.local.url
    ensures Store.GetLink(ShortenAll(s, links, choices).0.db.local, code) == Store.GetLink(s.db.local, code)
    decreases |links|
  {
    if links != [] {
      ShortenKeepsLinks(s, links[0], choices[0], code);
      ShortenKeepsCanGenerate(s, links[0], choices[0]);
      var s1 := Shorten(s, links[0], choices[0]).0;
      ShortenAllKeepsLinks(s1, links[1..], choices[1..], code);
    }
  }

  /**
    Startup raises exactly when some code in the remote url table is not the
    encoding of an issued counter. From a non-negative remote counter
    otherwise, it reaches the steady state, and with an empty queue the two
    tiers are in step.
   */
  lemma StartupReady(db: Store.Db)
    requires Store.GetSetting(db.remote, CodePool.CurrentMaxKey) >= 0
    ensures var synced := Store.FullSync(db);
      var r := Startup(db);
      && (r.result.Failure? <==> exists u :: u in db.remote.url && !CodePool.Issued(u, synced))
      && (r.result.Success? ==> CodePool.Consistent(r.state))
      && (r.result.Success? && db.pending == [] ==> Store.Replicated(r.state.db))
  {
    var synced := Store.FullSync(db);
    var s := CodePool.State([], synced);
    assert CodePool.Used(synced) == db.remote.url.Keys;
    CodePool.GenerateRaisesIff(s);
    if Startup(db).result.Success? {
      CodePool.GenerateKeepsConsistent(s);
      if db.pending == [] {
        Store.FullSyncReplicates(db);
        CodePool.GenerateKeepsReplicated(s);
      }
    }
  }

  /**
    `shutdown_event`: once every queued task has run, the remote tier holds
    exactly what the local tier holds.
   */
  lemma ShutdownReplicates(db: Store.Db)
    requires Store.Replicated(db)
    ensures Store.Drain(db).remote == db.local
    ensures Store.Drain(db).pending == []
  {
  }
}
