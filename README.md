# gitbored: the ingestion daemon and the grouped-commits view

gitbored shows a GitHub user's recent activity on a small Django page. A daemon
(`GithubFeed` in `gitbored/daemon/base.py`) runs three steps every cycle:

- `get_repos`: pick the user's five most recently updated public repositories.
- `update_repos`: write those repositories to a sqlite database.
- `update_commits`: write every fetched commit whose sha was not stored before the call. If one of those
  commits has a null author, the step raises and writes nothing.

The view (`get_grouped_commits` in `gitbored/views.py`) reads the Django `Commits` table of
`gitbored/models.py`, whose rows carry `author_date`, `url`, `distinct` and `message`. That is Django's own
table for the `gitbored` app, not the `commits` table the daemon writes (the daemon's rows have no
`author_date`), so the daemon shown here does not fill it; the model keeps the two row types apart
(`Daemon.CommitRecord` and `Views.CommitRow`). The view groups those rows by
repository, keeps each repository's five newest commits, attaches the repository row and its blurb, and
returns the five repositories whose newest commit is the latest.

The model has six modules:

- `Wrappers` holds `Option` and `Result`.
- `Seqs` holds `WithKey`, the elements of a sequence with a given key in order, and `FirstWithKey`, a
  first-match lookup.
- `Sorting` holds `SortDesc`, a stable descending sort that behaves like Python's `sorted(..., reverse=True)`.
  It also holds `Newest`, which is that sort followed by `[:n]`.
- `Ordering` holds the two orders the code sorts by. `IntLe` compares parsed instants. `StrLe` is
  Python's `<=` on `str`, lexicographic by code point.
- `Daemon` models `gitbored/daemon/base.py`. The database session is a class with the two tables as
  sequence fields. `GithubFeed.UpdateRepos` and `GithubFeed.UpdateCommits` are methods with the
  source's loops, and both are proved against specification functions.
- `Views` models `gitbored/views.py`. The grouping loop and the view are methods. The loop
  `GroupByRepo` is proved against `FirstSeen` and `WithKey`; the view `GetGroupedCommits` is proved
  against the ghost function `GroupedView`.

Several inputs become parameters:

- The GitHub responses: `data` for the repository list, and `fetch(name)` for one repository's commit
  list, with the `since` date fixed for the call.
- `dateutil.parser.parse`, as `parseDt: string -> int`.
- The three Django tables, as sequences. `Repos` and `Blurbs` are in primary-key order, which is the
  order `first()` uses on an unordered query.

The model follows what the code does, also where one might expect otherwise:

- Repository sync is not insert-once. `update_repos` checks no stored name and appends a row for every
  repository on every cycle (`Daemon.UpdateReposAddsEveryName`).
- Commit sync reads each chosen repository's commit list, repository after repository, and that is
  what is modelled.
- Staged shas are not guaranteed pairwise distinct. The staging code tests each sha only against the
  rows stored before the call (see Findings). Storage itself cannot repeat a sha, because `sha` is the
  primary key of `commits`: on such a batch `session.commit()` fails and stores none of it.

## Model

| member | source | states |
|---|---|---|
| Daemon.Public | gitbored/daemon/base.py:65 | the list holds exactly the non-private repositories of the response, each as often as in the response; `PublicAppend` and `PublicSingle` add that it keeps response order |
| Daemon.PublicAppend | gitbored/daemon/base.py:65 | the comprehension keeps response order: filtering a concatenation gives the concatenation of the filtered parts, and a one-element list is kept exactly when it is public |
| Daemon.GetRepos | gitbored/daemon/base.py:64-68 | the result holds min(5, number of public repositories) public repositories of the response, ordered so that parsed `updated_at` never increases |
| Daemon.GetReposKeepsNewest | gitbored/daemon/base.py:66 | the kept repositories are public ones; all of them are kept when there are at most 5; none left out was updated later than one kept; among equal instants the kept ones are the first in response order (stable sort, then `[:5]`) |
| Sorting.SortDesc | gitbored/daemon/base.py:66 | `sorted(..., reverse=True)` for a key and an order, also used at gitbored/views.py:34-36 and 49-51: a stable insertion sort; `SortDescPermutes` and `SortDescSpec` state what it computes |
| Sorting.Newest | gitbored/daemon/base.py:66 | `sorted(..., reverse=True)[:n]`, also used at gitbored/views.py:34-43 and 48-55; `NewestContents` and `NewestSpec` state what it keeps |
| Sorting.SortDescPermutes | gitbored/daemon/base.py:66 | the sort returns a permutation of its input, of the same length |
| Sorting.SortDescSpec | gitbored/daemon/base.py:66 | for a total order, the sorted sequence never increases, and elements with equal keys keep their input order |
| Sorting.NewestContents | gitbored/daemon/base.py:66 | `sorted(...)[:n]` has min(n, length) elements, all from the input, and holds the whole input when it has at most n elements |
| Sorting.NewestSpec | gitbored/daemon/base.py:66 | `sorted(...)[:n]` is non-increasing; nothing left out ranks above anything kept; equal keys keep their input order |
| Ordering.StrLe | gitbored/views.py:35 | Python's `<=` on `str`, which orders the `author_date` keys: code point by code point, a proper prefix first; `StrLeTotalOrder` proves it a total order |
| Ordering.StrLeTotalOrder | gitbored/views.py:34-36 | Python's ordering of `str` (the `author_date` sort key) is total, antisymmetric and transitive |
| Daemon.UpdateReposAddsEveryName | gitbored/daemon/base.py:70-82 | after `update_repos`, each name occurs as often as it did before plus as often as in the input, because no stored name is checked |
| Daemon.GithubFeed.UpdateRepos | gitbored/daemon/base.py:70-82 | storage gains one row per input repository, in input order, holding its name, description, owner login, `updated_at` and `html_url`; the commits table is unchanged |
| Daemon.Session.QueryCommit | gitbored/daemon/base.py:103 | the lookup finds nothing exactly when no stored commit has that sha, and otherwise returns a stored commit with that sha |
| Daemon.Session.AddAllRepos | gitbored/daemon/base.py:81-82 | `add_all` then `commit` appends the rows to the repos table and leaves the commits table alone |
| Daemon.Session.AddAllCommits | gitbored/daemon/base.py:112-113 | `add_all` then `commit` appends the rows to the commits table and leaves the repos table alone |
| Daemon.GithubFeed.UpdateCommits | gitbored/daemon/base.py:84-113 | the outcome is the staging of every fetched commit, repository after repository, against the shas stored before the call; on success storage gains exactly the staged rows (the program's `commit()` would instead fail on a batch that repeats a sha; see the `Daemon.GithubFeed.UpdateCommits` line under Left out), and on a null author nothing is written |
| Daemon.Batch | gitbored/daemon/base.py:94-102 | the commits the two loops visit: each chosen repository's fetched list, repository after repository, in response order; `UpdateCommits` is proved to visit exactly these |
| Daemon.StageBatch | gitbored/daemon/base.py:93-111 | the `updates` list as written, one turn per visited commit against the shas stored before the call; `StageBatchIsPendingRecords` and `StageBatchError` state its result |
| Daemon.Pending | gitbored/daemon/base.py:102-105 | the commits that get past the existence check are exactly the fetched ones whose sha is not stored; `PendingCount` adds how often, and `PendingAppend` and `PendingSingle` that they stay in fetch order |
| Daemon.PendingAppend | gitbored/daemon/base.py:94-105 | the existence check keeps fetch order across repositories: filtering a concatenation gives the concatenation of the filtered parts, and one commit is kept exactly when its sha is not stored |
| Daemon.PendingCount | gitbored/daemon/base.py:102-105 | each unstored commit gets past the existence check exactly as often as it was fetched, and a stored one never: there is no dedup within a batch |
| Daemon.StageBatchIsPendingRecords | gitbored/daemon/base.py:102-111 | staging succeeds exactly when every unstored commit has an author; it then yields one row per unstored commit, in fetch order, holding the repository name, sha, message, author login and URL |
| Daemon.StageBatchError | gitbored/daemon/base.py:109 | a failed staging reports the first unstored commit, in fetch order, that has a null author |
| Daemon.StageBatchErrSticky | gitbored/daemon/base.py:109 | once `commit['author']['login']` has raised, the commits after it change nothing |
| Daemon.StagedAreNew | gitbored/daemon/base.py:103-105 | no staged row has a sha that was already stored |
| Daemon.AllStoredStagesNothing | gitbored/daemon/base.py:102-105 | when every fetched sha is stored, nothing is staged |
| Daemon.StageBatchIdempotent | gitbored/daemon/base.py:94-113 | after the staged rows are stored, running `update_commits` again on the same responses stages nothing |
| Daemon.DuplicateShaStagedTwice | gitbored/daemon/base.py:103-111 | one commit fetched through two repositories is staged twice, so the staged rows repeat a sha |
| Daemon.StageBatchDeduped | gitbored/daemon/base.py:103-111 | the corrected staging, which also skips a sha already staged in the same batch; `DedupedKeepsShaKey` and `DedupedStagesEveryNewSha` state its result |
| Daemon.DedupedKeepsShaKey | gitbored/daemon/base.py:35 | with the within-batch test added, storage plus the staged rows never repeats a sha, which is the primary key of `commits` |
| Daemon.DedupedStagesEveryNewSha | gitbored/daemon/base.py:103-111 | the corrected staging loses nothing: when it succeeds, its rows hold exactly the shas of the fetched commits that were not stored |
| Views.FirstSeen | gitbored/views.py:19-22 | the keys of `by_repo` in insertion order; `FirstSeenContents` and `FirstSeenOrder` state what they are, and `GroupByRepo` is proved to build them |
| Views.FirstSeenContents | gitbored/views.py:19-22 | the keys of `by_repo` hold each repository once, and exactly the repositories that have a commit |
| Views.FirstSeenOrder | gitbored/views.py:19-22 | the keys are in the order in which each repository's first commit appears |
| Views.GroupByRepo | gitbored/views.py:19-22 | the loop builds the keys in first-appearance order and maps each repository to exactly its commits, in table order |
| Views.GroupOfRepoIsNonEmpty | gitbored/views.py:25-27 | every list in `by_repo` is non-empty and holds only that repository's commits, so `if not commits: continue` never skips one |
| Views.LookupRepo | gitbored/views.py:28 | the lookup returns the first `Repos` row carrying that name, and none exactly when no row carries it |
| Views.LookupBlurb | gitbored/views.py:29-32 | the lookup returns the first blurb of that repository id, and none exactly when there is none |
| Views.MakeGroup | gitbored/views.py:28-46 | the tuple built for one repository: first `Repos` row, its blurb, five newest commits; `GroupOfRepoShape`, `GroupOfRepoNewest` and `GroupDateIsLatest` state what it holds |
| Views.GroupedView | gitbored/views.py:48-55 | the tuples sorted by first commit date and cut to five; `GroupedViewShape`, `GroupedViewGroups` and `GroupedViewKeepsNewest` state what it is |
| Views.GetGroupedCommits | gitbored/views.py:7-58 | the method's result is `GroupedView`; the lemmas below state what that result is |
| Views.GroupOfRepoShape | gitbored/views.py:28-46 | the tuple built for a repository holds 1 to 5 of that repository's commits, newest first, with its first `Repos` row and that row's blurb (no blurb without a row) |
| Views.GroupOfRepoNewest | gitbored/views.py:34-43 | a tuple keeps all of its repository's commits when there are at most 5; none left out is newer than one kept; among equal `author_date`s the kept ones are the first in table order (stable sort, then `[:5]`) |
| Views.GroupDateIsLatest | gitbored/views.py:34-36 | the date a tuple is ranked by is the latest `author_date` among its repository's commits |
| Views.AllGroupsDistinct | gitbored/views.py:25-46 | before the final sort, there is one distinct tuple per repository, each built from its own commits |
| Views.GroupedViewShape | gitbored/views.py:48-55 | the result has min(5, number of repositories with commits) tuples, each for a different repository, ordered so that the first commits' dates never increase |
| Views.GroupedViewGroups | gitbored/views.py:7-13 | every returned tuple is the tuple of its repository, as `GroupOfRepoShape` describes it |
| Views.GroupedViewKeepsNewest | gitbored/views.py:48-55 | the result keeps all tuples when there are at most 5; no tuple left out has a later first date than one kept; among equal dates the kept ones come first in `by_repo` order |

## Left out

- The command line, daemonization, the pid file, logging and the `worker` loop are left out. The loop runs `get_repos`, `update_repos` and `update_commits` every 600 seconds, and the model offers those operations without the loop.
- The HTTP requests of `rest.get_json`, basic auth and URL building are left out: the responses are parameters. `mutils.rest` is not part of this model; assuming a failed request raises, it raises before anything is stored (though possibly after earlier repositories' commits were put in `updates`), and that path is not modelled.
- The clock and the `since` date are left out: each commit response is taken as already restricted to its dates.
- `dateutil.parser.parse` is a parameter. The exceptions it raises on a malformed `updated_at` are not modelled.
- The JSON responses are typed, so a missing key (a `KeyError`) cannot occur in the model. The null `author` that GitHub does send is modelled.
- `update_commits` reuses one `commit_data` dict for every commit of a repository. Each turn overwrites all five keys before building a row, so the reuse is not modelled: each row is built fresh.
- `get_db_session` caches one session per class and opens the sqlite file. The model is given one `Session` object.
- Daemon.Session.AddAllCommits: does not model the primary-key check that `session.commit()` makes. On a batch that repeats a sha (the Findings input) the program's commit fails, stores none of the batch, and the exception leaves the `worker` loop, which has no handler around it (the hook only logs it). The model's `AddAllCommits` stores both rows instead. The check is left out so that storing stays a plain append; the Findings row gives the corrected staging, under which the check never fails.
- Daemon.GithubFeed.UpdateCommits: on a batch whose staged rows repeat a sha (the Findings input) the model stores every staged row, while the program's `session.commit()` breaks the primary key on `sha`, stores nothing and raises; this follows from the `AddAllCommits` line above.
- The surrogate `id` column of the daemon's `repos` table is left out. The view's `Repos.id` is an input field.
- `add_friendly_dt`, which sets a display attribute `dt` on each kept commit object, is left out: it is formatting for the template. It changes none of the fields the model keeps, nor the order or the groups. Its `parse_dt` raises on an `author_date` that dateutil cannot parse, and then `get_grouped_commits` raises instead of returning; that error path is not modelled.
- The `print(len(grouped_commits))` call, the `index` view and the template are left out.
- Django's database order for `Commits.objects.all()` is an input: the model takes the commits in the order the database yields them.

## Findings

| source | as written | input that shows it | evidently intended | confidence | as-written member | corrected member |
|---|---|---|---|---|---|---|
| gitbored/daemon/base.py:103-111 | a commit is skipped only when its sha is in the rows stored before the call, so a commit reached twice in one batch is staged twice | repositories `lib` and `lib-fork` whose commit lists both hold sha `abc`, nothing stored | skip a sha already staged in the same batch, keeping the primary key on `sha` (line 35) | not executed | Daemon.DuplicateShaStagedTwice | Daemon.DedupedKeepsShaKey |

`Daemon.StageBatch` models the staging as written. `Daemon.StageBatchDeduped` is the corrected staging, and
`Daemon.DedupedKeepsShaKey` proves that it keeps shas unique, and `Daemon.DedupedStagesEveryNewSha` that
it still stages every sha that was not stored. `Daemon.GithubFeed.UpdateCommits` follows the
code as written, because the model describes what the daemon does.
