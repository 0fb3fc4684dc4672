/**
  The two-tier store of database.py. Each tier (the local SQLite file and the
  remote Postgres database) holds a `url` table, code to link, and a
  `settings` table, key to integer. Every local write is applied at once and
  queues one replication task that repeats the same statement on the remote
  tier; `full_sync` overwrites the local tables with the remote ones.
  Connections and the drivers are not modelled; a table is a map.
 */
module Store {
  import opened Wrappers
  import ByteOrder

  /** The `url` and `settings` tables of one tier. */
  datatype Tables = Tables(url: map<string, string>, settings: map<string, int>)

  /** One replication task: a pending call of `_insert_url_pg`, `_delete_url_pg` or `_set_setting_pg`. */
  datatype Task =
    | InsertUrlTask(code: string, link: string)
    | DeleteUrlTask(code: string)
    | SetSettingTask(key: string, value: int)

  /** Both tiers, and the replication tasks created but not yet run, oldest first. */
  datatype Db = Db(local: Tables, remote: Tables, pending: seq<Task>)

  // ----- reads, served from one tier -----

  /** `get_link`: the stored link, or None for an unknown code. */
  function GetLink(t: Tables, code: string): (r: Option<string>)
    ensures r.None? <==> code !in t.url
    ensures r.Some? ==> r.value == t.url[code]
  {
    if code in t.url then Some(t.url[code]) else None
  }

  /** `get_setting`: the stored value, 0 for an unknown key. */
  function GetSetting(t: Tables, key: string): (v: int)
    ensures key !in t.settings ==> v == 0
    ensures key in t.settings ==> v == t.settings[key]
  {
    if key in t.settings then t.settings[key] else 0
  }

  /** `get_url_mappings`: a dictionary built row by row from the url table. */
  function GetUrlMappings(t: Tables): (m: map<string, string>)
    ensures forall c :: GetLink(t, c) == if c in m then Some(m[c]) else None
  {
    map c | c in t.url :: t.url[c]
  }

  /**
    `get_url_codes`: every stored code once, in `ORDER BY code` order, or
    None when the table has no rows.
   */
  function GetUrlCodes(t: Tables): (r: Option<seq<string>>)
    ensures r.None? <==> t.url == map[]
    ensures r.Some? ==> |r.value| == |t.url|
    ensures r.Some? ==> forall c :: c in r.value <==> GetLink(t, c).Some?
  {
    if t.url == map[] then None else Some(ByteOrder.Sorted(t.url.Keys))
  }

  /** The codes come back strictly ascending, so each code at most once. */
  lemma UrlCodesAscending(t: Tables)
    ensures GetUrlCodes(t).Some? ==> ByteOrder.Ascending(GetUrlCodes(t).value)
  {
    ByteOrder.SortedAscending(t.url.Keys);
  }

  // ----- the three write statements, identical on both tiers -----

  /** `INSERT INTO url ... ON CONFLICT (code) DO NOTHING`: the first writer of a code wins. */
  function InsertUrlRow(t: Tables, code: string, link: string): (r: Tables)
    ensures code in t.url ==> r == t
    ensures code !in t.url ==> GetLink(r, code) == Some(link)
    ensures forall c :: c != code ==> GetLink(r, c) == GetLink(t, c)
    ensures r.settings == t.settings
  {
    if code in t.url then t else t.(url := t.url[code := link])
  }

  /** `DELETE FROM url WHERE code = ...`: an absent code is a no-op. */
  function DeleteUrlRow(t: Tables, code: string): (r: Tables)
    ensures GetLink(r, code) == None
    ensures forall c :: c != code ==> GetLink(r, c) == GetLink(t, c)
    ensures r.settings == t.settings
    ensures code !in t.url ==> r == t
  {
    t.(url := t.url - {code})
  }

  /** `INSERT INTO settings ... ON CONFLICT (key) DO UPDATE SET value = excluded.value`. */
  function UpsertSetting(t: Tables, key: string, value: int): (r: Tables)
    ensures GetSetting(r, key) == value
    ensures r.settings.Keys == t.settings.Keys + {key}
    ensures forall k :: k != key ==> GetSetting(r, k) == GetSetting(t, k)
    ensures r.url == t.url
  {
    t.(settings := t.settings[key := value])
  }

  /** What a replication task does to the remote tier when it runs. */
  function RunTask(t: Tables, task: Task): (r: Tables)
  {
    match task
    case InsertUrlTask(code, link) => InsertUrlRow(t, code, link)
    case DeleteUrlTask(code) => DeleteUrlRow(t, code)
    case SetSettingTask(key, value) => UpsertSetting(t, key, value)
  }

  /** The tasks run one after another, in the order they were created. */
  function Replay(t: Tables, tasks: seq<Task>): (r: Tables)
    decreases |tasks|
  {
    if tasks == [] then t else Replay(RunTask(t, tasks[0]), tasks[1..])
  }

  // ----- the public write path -----

  /** `insert_url`: the local insert, then one queued remote insert. */
  function InsertUrl(db: Db, code: string, link: string): (r: Db)
    ensures GetLink(r.local, code) == if code in db.local.url then GetLink(db.local, code) else Some(link)
    ensures forall c :: c != code ==> GetLink(r.local, c) == GetLink(db.local, c)
    ensures r.local.settings == db.local.settings
    ensures r.remote == db.remote
    ensures r.pending == db.pending + [InsertUrlTask(code, link)]
  {
    Db(InsertUrlRow(db.local, code, link), db.remote, db.pending + [InsertUrlTask(code, link)])
  }

  /** `delete_url`: the local delete, then one queued remote delete. */
  function DeleteUrl(db: Db, code: string): (r: Db)
    ensures GetLink(r.local, code) == None
    ensures forall c :: c != code ==> GetLink(r.local, c) == GetLink(db.local, c)
    ensures r.local.settings == db.local.settings
    ensures r.remote == db.remote
    ensures r.pending == db.pending + [DeleteUrlTask(code)]
  {
    Db(DeleteUrlRow(db.local, code), db.remote, db.pending + [DeleteUrlTask(code)])
  }

  /** `set_setting`: the local upsert, then one queued remote upsert. */
  function SetSetting(db: Db, key: string, value: int): (r: Db)
    ensures GetSetting(r.local, key) == value
    ensures forall k :: k != key ==> GetSetting(r.local, k) == GetSetting(db.local, k)
    ensures r.local.url == db.local.url
    ensures r.remote == db.remote
    ensures r.pending == db.pending + [SetSettingTask(key, value)]
  {
    Db(UpsertSetting(db.local, key, value), db.remote, db.pending + [SetSettingTask(key, value)])
  }

  /** A caller's write, dispatched to the public function it names. */
  function Perform(db: Db, w: Task): (r: Db)
  {
    match w
    case InsertUrlTask(code, link) => InsertUrl(db, code, link)
    case DeleteUrlTask(code) => DeleteUrl(db, code)
    case SetSettingTask(key, value) => SetSetting(db, key, value)
  }

  function PerformAll(db: Db, ws: seq<Task>): (r: Db)
    decreases |ws|
  {
    if ws == [] then db else PerformAll(Perform(db, ws[0]), ws[1..])
  }

  // ----- replication and sync -----

  /** The oldest pending task runs against the remote tier and leaves the queue. */
  function RunNextTask(db: Db): (r: Db)
    requires db.pending != []
    ensures r.local == db.local
    ensures |r.pending| == |db.pending| - 1
    ensures Replay(r.remote, r.pending) == Replay(db.remote, db.pending)
  {
    Db(db.local, RunTask(db.remote, db.pending[0]), db.pending[1..])
  }

  /** Every pending task runs, in creation order. */
  function Drain(db: Db): (r: Db)
    ensures r.local == db.local && r.pending == []
    ensures r.remote == Replay(db.remote, db.pending)
    decreases |db.pending|
  {
    if db.pending == [] then db else Drain(RunNextTask(db))
  }

  /**
    `full_sync`: both local tables are emptied and refilled from the rows
    fetched from the remote tier; the remote tier and the queue are untouched.
   */
  function FullSync(db: Db): (r: Db)
    ensures forall c :: GetLink(r.local, c) == GetLink(db.remote, c)
    ensures forall k :: GetSetting(r.local, k) == GetSetting(db.remote, k)
    ensures r.local.url.Keys == db.remote.url.Keys
    ensures r.local.settings.Keys == db.remote.settings.Keys
    ensures r.remote == db.remote && r.pending == db.pending
  {
    var url := map c | c in db.remote.url :: db.remote.url[c];
    var settings := map k | k in db.remote.settings :: db.remote.settings[k];
    Db(Tables(url, settings), db.remote, db.pending)
  }

  // ----- properties of the two tiers -----

  /** Running the pending tasks against the remote tier would reproduce the local tier. */
  ghost predicate Replicated(db: Db)
  {
    Replay(db.remote, db.pending) == db.local
  }

  lemma {:induction false} ReplaySnoc(t: Tables, tasks: seq<Task>, task: Task)
    ensures Replay(t, tasks + [task]) == RunTask(Replay(t, tasks), task)
    decreases |tasks|
  {
    if tasks != [] {
      assert (tasks + [task])[1..] == tasks[1..] + [task];
      ReplaySnoc(RunTask(t, tasks[0]), tasks[1..], task);
    }
  }

  /**
    Each local write and the task it queues have the same effect on a table:
    the local tier changes exactly as running the new task would change it.
   */
  lemma WriteQueuesItsTask(db: Db, w: Task)
    ensures var r := Perform(db, w);
      && r.pending == db.pending + [w]
      && r.local == RunTask(db.local, w)
      && r.remote == db.remote
  {
  }

  /** Every write keeps the replication invariant. */
  lemma WritePreservesReplicated(db: Db, w: Task)
    requires Replicated(db)
    ensures Replicated(Perform(db, w))
  {
    WriteQueuesItsTask(db, w);
    ReplaySnoc(db.remote, db.pending, w);
  }

  /**
    Starting from equal tiers and an empty queue, a sequence of writes queues
    exactly those writes, and running the queue in order makes the remote tier
    equal to the local one.
   */
  lemma ReplicationConverges(db: Db, ws: seq<Task>)
    requires db.local == db.remote && db.pending == []
    ensures PerformAll(db, ws).pending == ws
    ensures Drain(PerformAll(db, ws)).remote == PerformAll(db, ws).local
  {
    PerformAllReplicated(db, ws);
  }

  lemma {:induction false} PerformAllReplicated(db: Db, ws: seq<Task>)
    requires Replicated(db)
    ensures Replicated(PerformAll(db, ws))
    ensures PerformAll(db, ws).pending == db.pending + ws
    decreases |ws|
  {
    if ws != [] {
      WritePreservesReplicated(db, ws[0]);
      PerformAllReplicated(Perform(db, ws[0]), ws[1..]);
      QueueSplit(db.pending, ws);
    }
  }

  lemma QueueSplit(pending: seq<Task>, ws: seq<Task>)
    requires ws != []
    ensures pending + [ws[0]] + ws[1..] == pending + ws
  {
    assert ws == [ws[0]] + ws[1..];
  }

  /** With no pending tasks, a full sync leaves the tiers equal. */
  lemma FullSyncReplicates(db: Db)
    requires db.pending == []
    ensures Replicated(FullSync(db))
    ensures FullSync(db).local == FullSync(db).remote
  {
  }

  /** A second full sync changes nothing. */
  lemma FullSyncIdempotent(db: Db)
    ensures FullSync(FullSync(db)) == FullSync(db)
  {
  }

  /** A full sync overwrites rather than merges: local writes that were not replicated are lost. */
  lemma FullSyncDiscardsLocalWrites(db: Db, w: Task)
    ensures FullSync(Perform(db, w)).local == FullSync(db).local
  {
  }

  /**
    Two inserts of one code: the first link is kept locally, and, once the
    queue has run, remotely too (when the tiers were in step before).
   */
  lemma FirstWriterWins(db: Db, code: string, first: string, second: string)
    requires code !in db.local.url
    requires Replicated(db)
    ensures var r := InsertUrl(InsertUrl(db, code, first), code, second);
      && GetLink(r.local, code) == Some(first)
      && GetLink(Drain(r).remote, code) == Some(first)
  {
    var r1 := InsertUrl(db, code, first);
    WritePreservesReplicated(db, InsertUrlTask(code, first));
    WritePreservesReplicated(r1, InsertUrlTask(code, second));
  }
}
