/** The ingestion daemon of gitbored/daemon/base.py: choose the newest public repositories,
    record them, and record every fetched commit whose sha is not yet stored.

    The GitHub responses are inputs: `data` is what `rest.get_json` returned for the repository
    list, and `fetch(name)` is what it returned for the commit list of repository `name` (the
    user name and the `since` date are fixed for one call). `parseDt` stands for
    `dateutil.parser.parse` and maps an `updated_at` string to an instant. */
module Daemon {
  import opened Wrappers
  import opened Seqs
  import opened Sorting
  import opened Ordering

  // ---------------------------------------------------------------- fetched JSON

  datatype Owner = Owner(login: string)

  /** One element of the `/users/<user>/repos` response, reduced to the keys the daemon reads. */
  datatype RepoJson = RepoJson(name: string, description: Option<string>, owner: Owner,
                               updatedAt: string, htmlUrl: string, isPrivate: bool)

  datatype Author = Author(login: string)
  datatype CommitDetail = CommitDetail(message: string)

  /** One element of the `/repos/<user>/<repo>/commits` response; GitHub sends `"author": null`
      for a commit whose author has no GitHub account. */
  datatype CommitJson = CommitJson(sha: string, commit: CommitDetail, author: Option<Author>, htmlUrl: string)

  // ---------------------------------------------------------------- stored rows

  /** A row of the `repos` table (`repos_schema`); the surrogate id the table adds is not modelled. */
  datatype RepoRecord = RepoRecord(name: string, description: Option<string>, ownerLogin: string,
                                   updatedAt: string, htmlUrl: string)

  /** A row of the `commits` table (`commits_schema`); `sha` is declared its primary key. */
  datatype CommitRecord = CommitRecord(repo: string, sha: string, commitMessage: string,
                                       authorLogin: string, htmlUrl: string)

  /** `commit['author']['login']` on a null author raises, which ends `update_commits`. */
  datatype SyncError = MissingAuthor(sha: string)

  function CommitSha(c: CommitRecord): string { c.sha }

  function ShasOf(rows: seq<CommitRecord>): set<string> {
    set c | c in rows :: c.sha
  }

  /** The primary-key constraint of the `commits` table. */
  ghost predicate UniqueShas(rows: seq<CommitRecord>) {
    forall i, j :: 0 <= i < j < |rows| ==> rows[i].sha != rows[j].sha
  }

  // ---------------------------------------------------------------- get_repos

  /** `[r for r in data if not r['private']]` */
  function Public(data: seq<RepoJson>): (r: seq<RepoJson>)
    ensures forall x :: x in r <==> x in data && !x.isPrivate
    ensures forall x :: x in data && !x.isPrivate ==> multiset(r)[x] == multiset(data)[x]
    ensures multiset(r) <= multiset(data)
  {
    if data == [] then []
    else
      assert data == [data[0]] + data[1..];
      (if data[0].isPrivate then [] else [data[0]]) + Public(data[1..])
  }

  /** The filter keeps response order: filtering a concatenation concatenates the filtered parts. */
  lemma {:induction false} PublicAppend(a: seq<RepoJson>, b: seq<RepoJson>)
    ensures Public(a + b) == Public(a) + Public(b)
  {
    if a == [] {
      assert a + b == b;
    } else {
      var c := a + b;
      var head := if a[0].isPrivate then [] else [a[0]];
      assert c[0] == a[0] && c[1..] == a[1..] + b;
      assert Public(c) == head + Public(a[1..] + b);
      PublicAppend(a[1..], b);
    }
  }

  lemma PublicSingle(x: RepoJson)
    ensures Public([x]) == if x.isPrivate then [] else [x]
  {
  }

  function ByUpdated(parseDt: string -> int): RepoJson -> int {
    (r: RepoJson) => parseDt(r.updatedAt)
  }

  /** `get_repos` after the request: at most 5 public repositories, newest first. */
  function GetRepos(data: seq<RepoJson>, parseDt: string -> int): (r: seq<RepoJson>)
    ensures forall x :: x in r ==> x in data && !x.isPrivate
    ensures |r| == Min(5, |Public(data)|)
    ensures forall i, j :: 0 <= i < j < |r| ==> parseDt(r[j].updatedAt) <= parseDt(r[i].updatedAt)
  {
    GetReposFacts(data, parseDt);
    Newest(Public(data), ByUpdated(parseDt), IntLe, 5)
  }

  lemma GetReposFacts(data: seq<RepoJson>, parseDt: string -> int)
    ensures var r := Newest(Public(data), ByUpdated(parseDt), IntLe, 5);
            && (forall x :: x in r ==> x in data && !x.isPrivate)
            && |r| == Min(5, |Public(data)|)
            && (forall i, j :: 0 <= i < j < |r| ==> parseDt(r[j].updatedAt) <= parseDt(r[i].updatedAt))
  {
    var p := Public(data);
    var r := Newest(p, ByUpdated(parseDt), IntLe, 5);
    NewestByUpdated(p, parseDt);
    NewestContents(p, ByUpdated(parseDt), IntLe, 5);
    forall x | x in r ensures x in data && !x.isPrivate {
      assert x in multiset(r);
      assert x in multiset(p);
      assert x in p;
    }
  }

  /** The repositories `get_repos` keeps are the most recently updated public ones: all of them when
      there are at most 5, and otherwise none left out is newer than one kept; among equal instants
      the kept ones are the first in response order. */
  lemma GetReposKeepsNewest(data: seq<RepoJson>, parseDt: string -> int)
    ensures var r := GetRepos(data, parseDt);
            && multiset(r) <= multiset(Public(data))
            && (|Public(data)| <= 5 ==> multiset(r) == multiset(Public(data)))
            && (forall y, x :: y in multiset(Public(data)) - multiset(r) && x in r ==>
                                 parseDt(y.updatedAt) <= parseDt(x.updatedAt))
            && (forall t :: WithKey(r, ByUpdated(parseDt), t) <= WithKey(Public(data), ByUpdated(parseDt), t))
  {
    NewestByUpdated(Public(data), parseDt);
    NewestContents(Public(data), ByUpdated(parseDt), IntLe, 5);
  }

  /** `NewestSpec` for `updated_at` instants, with the key and the order written out. */
  lemma NewestByUpdated(s: seq<RepoJson>, parseDt: string -> int)
    ensures var r := Newest(s, ByUpdated(parseDt), IntLe, 5);
            && (forall i, j :: 0 <= i < j < |r| ==> parseDt(r[j].updatedAt) <= parseDt(r[i].updatedAt))
            && (forall y, x :: y in multiset(s) - multiset(r) && x in r ==> parseDt(y.updatedAt) <= parseDt(x.updatedAt))
            && (forall t :: WithKey(r, ByUpdated(parseDt), t) <= WithKey(s, ByUpdated(parseDt), t))
  {
    var key := ByUpdated(parseDt);
    var r := Newest(s, key, IntLe, 5);
    IntLeTotalOrder();
    NewestSpec(s, key, IntLe, 5);
    forall i, j | 0 <= i < j < |r| ensures parseDt(r[j].updatedAt) <= parseDt(r[i].updatedAt) {
      assert IntLe(key(r[j]), key(r[i]));
    }
    forall y, x | y in multiset(s) - multiset(r) && x in r ensures parseDt(y.updatedAt) <= parseDt(x.updatedAt) {
      assert IntLe(key(y), key(x));
    }
  }

  // ---------------------------------------------------------------- update_repos

  /** The `repo_data` dict built for one repository. */
  function ToRepoRecord(j: RepoJson): RepoRecord {
    RepoRecord(j.name, j.description, j.owner.login, j.updatedAt, j.htmlUrl)
  }

  function RepoRecords(repos: seq<RepoJson>): seq<RepoRecord> {
    seq(|repos|, i requires 0 <= i < |repos| => ToRepoRecord(repos[i]))
  }

  function RepoNames(rows: seq<RepoRecord>): seq<string> {
    seq(|rows|, i requires 0 <= i < |rows| => rows[i].name)
  }

  /** `update_repos` checks no name against storage: every input repository adds one row with
      its name, whether or not a row of that name is already stored. */
  lemma UpdateReposAddsEveryName(stored: seq<RepoRecord>, repos: seq<RepoJson>)
    ensures forall n :: multiset(RepoNames(stored + RepoRecords(repos)))[n]
                        == multiset(RepoNames(stored))[n] + multiset(seq(|repos|, i requires 0 <= i < |repos| => repos[i].name))[n]
  {
    var names := seq(|repos|, i requires 0 <= i < |repos| => repos[i].name);
    assert RepoNames(stored + RepoRecords(repos)) == RepoNames(stored) + names;
  }

  // ---------------------------------------------------------------- update_commits

  /** A fetched commit together with the name of the repository it was fetched for. */
  datatype Item = Item(repo: string, commit: CommitJson)

  function ItemsOf(name: string, commits: seq<CommitJson>): seq<Item> {
    seq(|commits|, j requires 0 <= j < |commits| => Item(name, commits[j]))
  }

  /** Every fetched commit, repository after repository, each in response order. */
  function Batch(repos: seq<RepoJson>, fetch: string -> seq<CommitJson>): seq<Item> {
    if repos == [] then []
    else Batch(repos[..|repos| - 1], fetch) + ItemsOf(repos[|repos| - 1].name, fetch(repos[|repos| - 1].name))
  }

  /** The `commit_data` dict built for one commit. */
  function ToCommitRecord(repo: string, c: CommitJson, a: Author): CommitRecord {
    CommitRecord(repo, c.sha, c.commit.message, a.login, c.htmlUrl)
  }

  /** One turn of the inner loop of `update_commits`: skip a sha in `skip`, otherwise stage a record
      (or fail on a null author). */
  function StageStep(acc: Result<seq<CommitRecord>, SyncError>, it: Item, skip: set<string>)
    : Result<seq<CommitRecord>, SyncError>
  {
    match acc
    case Err(e) => Err(e)
    case Ok(u) =>
      if it.commit.sha in skip then Ok(u)
      else match it.commit.author
        case None => Err(MissingAuthor(it.commit.sha))
        case Some(a) => Ok(u + [ToCommitRecord(it.repo, it.commit, a)])
  }

  /** The `updates` list of `update_commits`: the only dedup test is against the shas stored before
      the call, so a sha that occurs twice in one batch is staged twice. */
  function StageBatch(items: seq<Item>, stored: set<string>): Result<seq<CommitRecord>, SyncError> {
    if items == [] then Ok([])
    else StageStep(StageBatch(items[..|items| - 1], stored), items[|items| - 1], stored)
  }

  /** The items whose sha is not stored, in batch order. */
  function Pending(items: seq<Item>, stored: set<string>): (r: seq<Item>)
    ensures forall it :: it in r <==> it in items && it.commit.sha !in stored
  {
    if items == [] then []
    else
      var last := items[|items| - 1];
      assert items == items[..|items| - 1] + [last];
      Pending(items[..|items| - 1], stored) + (if last.commit.sha in stored then [] else [last])
  }

  /** The filter keeps fetch order: filtering a concatenation concatenates the filtered parts. */
  lemma {:induction false} PendingAppend(a: seq<Item>, b: seq<Item>, stored: set<string>)
    ensures Pending(a + b, stored) == Pending(a, stored) + Pending(b, stored)
  {
    if b == [] {
      assert a + b == a;
    } else {
      var init, last := b[..|b| - 1], b[|b| - 1];
      assert (a + b)[..|a + b| - 1] == a + init;
      assert (a + b)[|a + b| - 1] == last;
      PendingAppend(a, init, stored);
    }
  }

  lemma PendingSingle(x: Item, stored: set<string>)
    ensures Pending([x], stored) == if x.commit.sha in stored then [] else [x]
  {
  }

  /** The filter drops nothing twice and dedups nothing: each unstored item is kept exactly as often
      as it was fetched, and each stored one not at all. */
  lemma {:induction false} PendingCount(items: seq<Item>, stored: set<string>, it: Item)
    ensures multiset(Pending(items, stored))[it] == if it.commit.sha in stored then 0 else multiset(items)[it]
  {
    if items != [] {
      var init, last := items[..|items| - 1], items[|items| - 1];
      assert items == init + [last];
      PendingCount(init, stored, it);
    }
  }

  ghost predicate AllAuthored(items: seq<Item>) {
    forall it :: it in items ==> it.commit.author.Some?
  }

  function Records(items: seq<Item>): seq<CommitRecord>
    requires AllAuthored(items)
  {
    seq(|items|, j requires 0 <= j < |items| => ToCommitRecord(items[j].repo, items[j].commit, items[j].commit.author.value))
  }

  lemma StageBatchSnoc(items: seq<Item>, x: Item, stored: set<string>)
    ensures StageBatch(items + [x], stored) == StageStep(StageBatch(items, stored), x, stored)
  {
    assert (items + [x])[..|items|] == items;
  }

  /** Once staging has failed, later commits do not matter. */
  lemma {:induction false} StageBatchErrSticky(items: seq<Item>, more: seq<Item>, stored: set<string>)
    requires StageBatch(items, stored).Err?
    ensures StageBatch(items + more, stored) == StageBatch(items, stored)
  {
    if more == [] {
      assert items + more == items;
    } else {
      var init := more[..|more| - 1];
      assert items + more == (items + init) + [more[|more| - 1]];
      StageBatchErrSticky(items, init, stored);
      StageBatchSnoc(items + init, more[|more| - 1], stored);
    }
  }

  /** `update_commits` succeeds exactly when every commit whose sha is not stored has an author, and
      then stages one record per such commit, in batch order, without any dedup within the batch. */
  lemma {:induction false} StageBatchIsPendingRecords(items: seq<Item>, stored: set<string>)
    ensures StageBatch(items, stored).Ok? <==>
            forall it :: it in items && it.commit.sha !in stored ==> it.commit.author.Some?
    ensures StageBatch(items, stored).Ok? ==>
            AllAuthored(Pending(items, stored)) && StageBatch(items, stored).value == Records(Pending(items, stored))
  {
    if items != [] {
      var init, last := items[..|items| - 1], items[|items| - 1];
      InInitOrLast(items);
      StageBatchIsPendingRecords(init, stored);
      var p := Pending(init, stored);
      if StageBatch(items, stored).Ok? && last.commit.sha !in stored {
        RecordsSnoc(p, last);
      }
    }
  }

  lemma InInitOrLast(items: seq<Item>)
    requires items != []
    ensures forall it :: it in items <==> it in items[..|items| - 1] || it == items[|items| - 1]
  {
    assert items == items[..|items| - 1] + [items[|items| - 1]];
  }

  lemma RecordsSnoc(p: seq<Item>, x: Item)
    requires AllAuthored(p) && x.commit.author.Some?
    ensures AllAuthored(p + [x])
    ensures Records(p + [x]) == Records(p) + [ToCommitRecord(x.repo, x.commit, x.commit.author.value)]
  {
  }

  /** A failed `update_commits` names the first commit, in batch order, that is not stored and has no author. */
  lemma {:induction false} StageBatchError(items: seq<Item>, stored: set<string>)
    requires StageBatch(items, stored).Err?
    ensures exists i :: 0 <= i < |items| && FirstUnauthored(items, stored, i) &&
                        StageBatch(items, stored).error == MissingAuthor(items[i].commit.sha)
  {
    var init, last := items[..|items| - 1], items[|items| - 1];
    if StageBatch(init, stored).Err? {
      StageBatchError(init, stored);
      var i :| 0 <= i < |init| && FirstUnauthored(init, stored, i) &&
               StageBatch(init, stored).error == MissingAuthor(init[i].commit.sha);
      FirstUnauthoredExtends(init, last, stored, i);
      assert items == init + [last];
    } else {
      StageBatchIsPendingRecords(init, stored);
      var i := |items| - 1;
      forall j | 0 <= j < i && items[j].commit.sha !in stored ensures items[j].commit.author.Some? {
        assert items[j] == init[j] && init[j] in init;
      }
      assert FirstUnauthored(items, stored, i);
    }
  }

  /** Commit `i` is not stored and has no author, and every earlier such commit has one. */
  ghost predicate FirstUnauthored(items: seq<Item>, stored: set<string>, i: nat)
    requires i < |items|
  {
    && items[i].commit.sha !in stored && items[i].commit.author.None?
    && forall j :: 0 <= j < i && items[j].commit.sha !in stored ==> items[j].commit.author.Some?
  }

  lemma FirstUnauthoredExtends(items: seq<Item>, x: Item, stored: set<string>, i: nat)
    requires i < |items| && FirstUnauthored(items, stored, i)
    ensures FirstUnauthored(items + [x], stored, i)
  {
    assert forall j :: 0 <= j <= i ==> (items + [x])[j] == items[j];
  }

  /** `update_commits` never stages a commit whose sha is already stored. */
  lemma StagedAreNew(items: seq<Item>, stored: set<string>)
    ensures StageBatch(items, stored).Ok? ==> forall c :: c in StageBatch(items, stored).value ==> c.sha !in stored
  {
    StageBatchIsPendingRecords(items, stored);
    if StageBatch(items, stored).Ok? {
      var p := Pending(items, stored);
      forall c | c in StageBatch(items, stored).value ensures c.sha !in stored {
        var j :| 0 <= j < |Records(p)| && Records(p)[j] == c;
        assert p[j] in p;
      }
    }
  }

  lemma {:induction false} AllStoredStagesNothing(items: seq<Item>, stored: set<string>)
    requires forall it :: it in items ==> it.commit.sha in stored
    ensures StageBatch(items, stored) == Ok([])
  {
    if items != [] {
      AllStoredStagesNothing(items[..|items| - 1], stored);
      assert items[|items| - 1] in items;
    }
  }

  /** Once the staged commits are stored, running `update_commits` on the same responses stages nothing. */
  lemma StageBatchIdempotent(items: seq<Item>, stored: set<string>)
    requires StageBatch(items, stored).Ok?
    ensures StageBatch(items, stored + ShasOf(StageBatch(items, stored).value)) == Ok([])
  {
    StageBatchIsPendingRecords(items, stored);
    var u := StageBatch(items, stored).value;
    var p := Pending(items, stored);
    forall it | it in items ensures it.commit.sha in stored + ShasOf(u) {
      if it.commit.sha !in stored {
        assert it in p;
        var j :| 0 <= j < |p| && p[j] == it;
        assert u[j] in u && u[j].sha == it.commit.sha;
      }
    }
    AllStoredStagesNothing(items, stored + ShasOf(u));
  }

  /** One commit reached through two repositories (a fork shares its parent's history) is staged
      twice, so the staged rows break the primary key on `sha`. */
  lemma DuplicateShaStagedTwice()
    ensures var c := CommitJson("abc", CommitDetail("m"), Some(Author("u")), "h");
            var items := [Item("lib", c), Item("lib-fork", c)];
            StageBatch(items, {}) == Ok([ToCommitRecord("lib", c, Author("u")), ToCommitRecord("lib-fork", c, Author("u"))])
            && !UniqueShas(StageBatch(items, {}).value)
  {
    var c := CommitJson("abc", CommitDetail("m"), Some(Author("u")), "h");
    var items := [Item("lib", c), Item("lib-fork", c)];
    var r1, r2 := ToCommitRecord("lib", c, Author("u")), ToCommitRecord("lib-fork", c, Author("u"));
    StageBatchSnoc([], Item("lib", c), {});
    assert [] + [Item("lib", c)] == [Item("lib", c)];
    assert StageBatch([Item("lib", c)], {}) == StageStep(Ok([]), Item("lib", c), {});
    assert [] + [r1] == [r1];
    assert StageBatch([Item("lib", c)], {}) == Ok([r1]);
    StageBatchSnoc([Item("lib", c)], Item("lib-fork", c), {});
    assert [Item("lib", c)] + [Item("lib-fork", c)] == items;
    assert StageBatch(items, {}) == StageStep(Ok([r1]), Item("lib-fork", c), {});
    assert [r1] + [r2] == [r1, r2];
    assert StageStep(Ok([r1]), Item("lib-fork", c), {}) == Ok([r1, r2]);
    var u := StageBatch(items, {}).value;
    assert u[0].sha == u[1].sha;
  }

  /** The intended staging: a sha is also skipped when an earlier commit of the same batch staged it. */
  function StageBatchDeduped(items: seq<Item>, stored: set<string>): Result<seq<CommitRecord>, SyncError> {
    if items == [] then Ok([])
    else
      var acc := StageBatchDeduped(items[..|items| - 1], stored);
      StageStep(acc, items[|items| - 1], stored + (if acc.Ok? then ShasOf(acc.value) else {}))
  }

  /** With the within-batch test, the staged rows never share a sha with each other or with storage,
      so storing them keeps the primary key of `commits`. */
  lemma {:induction false} DedupedKeepsShaKey(items: seq<Item>, rows: seq<CommitRecord>)
    requires UniqueShas(rows)
    ensures StageBatchDeduped(items, ShasOf(rows)).Ok? ==> UniqueShas(rows + StageBatchDeduped(items, ShasOf(rows)).value)
  {
    if items != [] {
      var init := items[..|items| - 1];
      DedupedKeepsShaKey(init, rows);
      var acc := StageBatchDeduped(init, ShasOf(rows));
      if acc.Ok? && StageBatchDeduped(items, ShasOf(rows)).Ok? {
        var all := rows + acc.value;
        var it := items[|items| - 1];
        if it.commit.sha !in ShasOf(rows) + ShasOf(acc.value) {
          var c := ToCommitRecord(it.repo, it.commit, it.commit.author.value);
          assert rows + StageBatchDeduped(items, ShasOf(rows)).value == all + [c];
          forall i | 0 <= i < |all| ensures all[i].sha != c.sha {
            if i < |rows| { assert all[i] == rows[i]; } else { assert all[i] == acc.value[i - |rows|]; }
          }
        }
      }
    }
  }

  /** The within-batch test loses nothing: a successful corrected staging holds exactly the shas of the
      fetched commits that were not stored. */
  lemma {:induction false} DedupedStagesEveryNewSha(items: seq<Item>, stored: set<string>)
    ensures StageBatchDeduped(items, stored).Ok? ==>
            ShasOf(StageBatchDeduped(items, stored).value) ==
            (set it | it in items && it.commit.sha !in stored :: it.commit.sha)
  {
    if items != [] {
      var init, last := items[..|items| - 1], items[|items| - 1];
      InInitOrLast(items);
      DedupedStagesEveryNewSha(init, stored);
      var acc := StageBatchDeduped(init, stored);
      if StageBatchDeduped(items, stored).Ok? {
        var before := set it | it in init && it.commit.sha !in stored :: it.commit.sha;
        var after := set it | it in items && it.commit.sha !in stored :: it.commit.sha;
        if last.commit.sha in stored + ShasOf(acc.value) {
          assert after == before by {
            forall x | x in after ensures x in before {
              var it :| it in items && it.commit.sha !in stored && it.commit.sha == x;
              if it != last { assert it in init; }
            }
          }
        } else {
          var c := ToCommitRecord(last.repo, last.commit, last.commit.author.value);
          assert ShasOf(acc.value + [c]) == ShasOf(acc.value) + {c.sha};
          assert after == before + {last.commit.sha} by {
            forall x | x in after ensures x in before + {last.commit.sha} {
              var it :| it in items && it.commit.sha !in stored && it.commit.sha == x;
              if it != last { assert it in init; }
            }
          }
        }
      }
    }
  }

  // ---------------------------------------------------------------- storage

  /** The SQLAlchemy session over the daemon's sqlite database. */
  class Session {
    var repos: seq<RepoRecord>
    var commits: seq<CommitRecord>

    constructor (repos: seq<RepoRecord>, commits: seq<CommitRecord>)
      ensures this.repos == repos && this.commits == commits
    {
      this.repos := repos;
      this.commits := commits;
    }

    ghost function StoredShas(): set<string>
      reads this
    {
      ShasOf(commits)
    }

    /** `session.query(commits).filter_by(sha=sha).first()` */
    function QueryCommit(sha: string): (r: Option<CommitRecord>)
      reads this
      ensures r.None? <==> sha !in StoredShas()
      ensures r.Some? ==> r.value in commits && r.value.sha == sha
    {
      FirstWithKey(commits, CommitSha, sha)
    }

    /** `session.add_all(rows)` followed by `session.commit()` on the `repos` table. */
    method AddAllRepos(rows: seq<RepoRecord>)
      modifies this
      ensures repos == old(repos) + rows && commits == old(commits)
    {
      repos := repos + rows;
    }

    /** `session.add_all(rows)` followed by `session.commit()` on the `commits` table. */
    method AddAllCommits(rows: seq<CommitRecord>)
      modifies this
      ensures commits == old(commits) + rows && repos == old(repos)
    {
      commits := commits + rows;
    }
  }

  // ---------------------------------------------------------------- the feed

  class GithubFeed {
    const session: Session

    constructor (session: Session)
      ensures this.session == session
    {
      this.session := session;
    }

    /** `update_repos`: one row per input repository, in input order, appended to storage. */
    method UpdateRepos(repos: seq<RepoJson>)
      modifies session
      ensures session.repos == old(session.repos) + RepoRecords(repos)
      ensures session.commits == old(session.commits)
    {
      var updates: seq<RepoRecord> := [];
      for i := 0 to |repos|
        invariant |updates| == i
        invariant forall k :: 0 <= k < i ==> updates[k] == ToRepoRecord(repos[k])
      {
        var repoData := ToRepoRecord(repos[i]);
        updates := updates + [repoData];
      }
      assert updates == RepoRecords(repos);
      session.AddAllRepos(updates);
    }

    /** `update_commits`: walk every repository's fetched commits, skip those whose sha is stored,
        stage the others, and store the staged list; a null author aborts before anything is stored. */
    method UpdateCommits(repos: seq<RepoJson>, fetch: string -> seq<CommitJson>)
      returns (outcome: Result<seq<CommitRecord>, SyncError>)
      modifies session
      ensures outcome == StageBatch(Batch(repos, fetch), old(session.StoredShas()))
      ensures session.commits == if outcome.Ok? then old(session.commits) + outcome.value else old(session.commits)
      ensures session.repos == old(session.repos)
    {
      ghost var stored := session.StoredShas();
      var updates: seq<CommitRecord> := [];
      for i := 0 to |repos|
        invariant StageBatch(Batch(repos[..i], fetch), stored) == Ok(updates)
        invariant session.commits == old(session.commits) && session.repos == old(session.repos)
      {
        var name := repos[i].name;
        var commits := fetch(name);
        ghost var before := Batch(repos[..i], fetch);
        assert before + ItemsOf(name, commits[..0]) == before;
        for j := 0 to |commits|
          invariant StageBatch(before + ItemsOf(name, commits[..j]), stored) == Ok(updates)
          invariant session.commits == old(session.commits) && session.repos == old(session.repos)
        {
          var commit := commits[j];
          ghost var done := before + ItemsOf(name, commits[..j]);
          ItemsOfSnoc(name, commits, j);
          assert before + ItemsOf(name, commits[..j + 1]) == done + [Item(name, commit)];
          StageBatchSnoc(done, Item(name, commit), stored);
          var existing := session.QueryCommit(commit.sha);
          if existing.Some? {
            continue;
          }
          match commit.author {
            case None =>
              outcome := Err(MissingAuthor(commit.sha));
              BatchSplit(repos, fetch, i, j);
              StageBatchErrSticky(done + [Item(name, commit)],
                                  ItemsOf(name, commits[j + 1..]) + Batch(repos[i + 1..], fetch), stored);
              return;
            case Some(author) =>
              updates := updates + [ToCommitRecord(name, commit, author)];
          }
        }
        assert commits[..|commits|] == commits;
        assert repos[..i + 1][..i] == repos[..i];
      }
      assert repos[..|repos|] == repos;
      session.AddAllCommits(updates);
      outcome := Ok(updates);
    }
  }

  lemma ItemsOfSnoc(name: string, commits: seq<CommitJson>, j: nat)
    requires j < |commits|
    ensures ItemsOf(name, commits[..j + 1]) == ItemsOf(name, commits[..j]) + [Item(name, commits[j])]
  {
  }

  lemma {:induction false} BatchAppend(a: seq<RepoJson>, b: seq<RepoJson>, fetch: string -> seq<CommitJson>)
    ensures Batch(a + b, fetch) == Batch(a, fetch) + Batch(b, fetch)
  {
    if b == [] {
      assert a + b == a;
    } else {
      var init, last := b[..|b| - 1], b[|b| - 1];
      var tail := ItemsOf(last.name, fetch(last.name));
      assert (a + b)[..|a + b| - 1] == a + init;
      assert (a + b)[|a + b| - 1] == last;
      assert Batch(a + b, fetch) == Batch(a + init, fetch) + tail;
      assert Batch(b, fetch) == Batch(init, fetch) + tail;
      BatchAppend(a, init, fetch);
    }
  }

  /** The batch cut after commit `j` of repository `i`. */
  lemma BatchSplit(repos: seq<RepoJson>, fetch: string -> seq<CommitJson>, i: nat, j: nat)
    requires i < |repos| && j < |fetch(repos[i].name)|
    ensures var name := repos[i].name;
            var commits := fetch(name);
            Batch(repos, fetch) == (Batch(repos[..i], fetch) + ItemsOf(name, commits[..j]) + [Item(name, commits[j])])
                                   + (ItemsOf(name, commits[j + 1..]) + Batch(repos[i + 1..], fetch))
  {
    var name := repos[i].name;
    var commits := fetch(name);
    var left, right := Batch(repos[..i], fetch), Batch(repos[i + 1..], fetch);
    var x, y, z := ItemsOf(name, commits[..j]), Item(name, commits[j]), ItemsOf(name, commits[j + 1..]);
    BatchAt(repos, fetch, i);
    ItemsOfSplit(name, commits, j);
    Regroup(left, x, [y], z, right);
  }

  /** The batch around repository `i`. */
  lemma BatchAt(repos: seq<RepoJson>, fetch: string -> seq<CommitJson>, i: nat)
    requires i < |repos|
    ensures Batch(repos, fetch) == (Batch(repos[..i], fetch) + ItemsOf(repos[i].name, fetch(repos[i].name)))
                                   + Batch(repos[i + 1..], fetch)
  {
    var front, back := repos[..i + 1], repos[i + 1..];
    assert Batch(repos, fetch) == Batch(front, fetch) + Batch(back, fetch) by {
      assert repos == front + back;
      BatchAppend(front, back, fetch);
    }
    assert Batch(front, fetch) == Batch(repos[..i], fetch) + ItemsOf(repos[i].name, fetch(repos[i].name)) by {
      assert front[..i] == repos[..i] && front[i] == repos[i];
    }
  }

  lemma ItemsOfSplit(name: string, commits: seq<CommitJson>, j: nat)
    requires j < |commits|
    ensures ItemsOf(name, commits) == ItemsOf(name, commits[..j]) + [Item(name, commits[j])] + ItemsOf(name, commits[j + 1..])
  {
  }
}
