/** `get_grouped_commits` of gitbored/views.py: group the stored commits by repository, keep each
    repository's 5 newest commits, attach the repository row and its blurb, and keep the 5
    repositories whose newest commit is latest.

    The tables are inputs: `commits` is `Commits.objects.all()` in the order the database yields it,
    and `repos` and `blurbs` are the `Repos` and `Blurbs` tables in primary-key order, the order
    Django's `first()` uses on an unordered query. `author_date` is compared as a Python string. */
module Views {
  import opened Wrappers
  import opened Seqs
  import opened Sorting
  import opened Ordering

  /** A row of the `Commits` model of gitbored/models.py. */
  datatype CommitRow = CommitRow(repo: string, sha: string, url: string, distinct: bool,
                                 message: Option<string>, authorName: Option<string>,
                                 authorEmail: Option<string>, authorLogin: string,
                                 authorHtmlUrl: string, htmlUrl: string, authorDate: string)

  /** A row of the `Repos` model. */
  datatype RepoRow = RepoRow(id: int, name: Option<string>, description: Option<string>,
                             ownerLogin: Option<string>, updatedAt: Option<string>, htmlUrl: Option<string>)

  /** A row of the `Blurbs` model; `repoId` is the id of its repository. */
  datatype BlurbRow = BlurbRow(repoId: int, blurb: Option<string>)

  /** One `(repo, blurb, [commit, ...])` tuple of the result. */
  datatype Group = Group(repo: Option<RepoRow>, blurb: Option<BlurbRow>, commits: seq<CommitRow>)

  function RepoOf(c: CommitRow): string { c.repo }
  function AuthorDate(c: CommitRow): string { c.authorDate }
  function RowName(r: RepoRow): Option<string> { r.name }
  function BlurbRepoId(b: BlurbRow): int { b.repoId }

  /** `x[2][0].author_date`, the key the groups are sorted by. */
  function GroupDate(g: Group): string { if g.commits == [] then "" else g.commits[0].authorDate }

  /** The repository a group was built for, `commits[0].repo`. */
  function GroupRepo(g: Group): string { if g.commits == [] then "" else g.commits[0].repo }

  // ---------------------------------------------------------------- lookups

  /** `Repos.objects.filter(name=name).first()`: the first row of that name, or none. */
  function LookupRepo(repos: seq<RepoRow>, name: string): (r: Option<RepoRow>)
    ensures r.None? <==> forall row :: row in repos ==> row.name != Some(name)
    ensures r.Some? ==> exists i :: 0 <= i < |repos| && repos[i] == r.value && repos[i].name == Some(name) &&
                                    forall j :: 0 <= j < i ==> repos[j].name != Some(name)
  {
    FirstWithKey(repos, RowName, Some(name))
  }

  /** `Blurbs.objects.filter(repo_id=repoId).first()`: the first blurb of that repository, or none. */
  function LookupBlurb(blurbs: seq<BlurbRow>, repoId: int): (r: Option<BlurbRow>)
    ensures r.None? <==> forall b :: b in blurbs ==> b.repoId != repoId
    ensures r.Some? ==> exists i :: 0 <= i < |blurbs| && blurbs[i] == r.value && blurbs[i].repoId == repoId &&
                                    forall j :: 0 <= j < i ==> blurbs[j].repoId != repoId
  {
    FirstWithKey(blurbs, BlurbRepoId, repoId)
  }

  // ---------------------------------------------------------------- grouping

  /** The keys of `by_repo`: each repository once, in the order its first commit appears. */
  function FirstSeen(commits: seq<CommitRow>): seq<string> {
    if commits == [] then []
    else
      var keys := FirstSeen(commits[..|commits| - 1]);
      var c := commits[|commits| - 1];
      if c.repo in keys then keys else keys + [c.repo]
  }

  /** The keys of `by_repo` hold each repository once, and exactly the repositories that have a commit. */
  lemma {:induction false} FirstSeenContents(commits: seq<CommitRow>)
    ensures Distinct(FirstSeen(commits))
    ensures forall k :: k in FirstSeen(commits) <==> exists c :: c in commits && c.repo == k
  {
    if commits != [] {
      var init, c := commits[..|commits| - 1], commits[|commits| - 1];
      assert commits == init + [c];
      FirstSeenContents(init);
    }
  }

  /** `keys` are listed in the order their first commits appear in `commits`. */
  ghost predicate InAppearanceOrder(keys: seq<string>, commits: seq<CommitRow>) {
    forall i, j :: 0 <= i < j < |keys| ==>
      IndexOfKey(commits, RepoOf, keys[i]) < IndexOfKey(commits, RepoOf, keys[j]) < |commits|
  }

  /** The keys of `by_repo` are in first-appearance order. */
  lemma {:induction false} FirstSeenOrder(commits: seq<CommitRow>)
    ensures InAppearanceOrder(FirstSeen(commits), commits)
  {
    if commits != [] {
      var init, c := commits[..|commits| - 1], commits[|commits| - 1];
      assert commits == init + [c];
      FirstSeenOrder(init);
      FirstSeenContents(init);
      var prev := FirstSeen(init);
      var keys := FirstSeen(commits);
      assert keys == if c.repo in prev then prev else prev + [c.repo];
      forall k | k in prev ensures IndexOfKey(commits, RepoOf, k) == IndexOfKey(init, RepoOf, k) < |init| {
        IndexOfKeyPresent(init, k);
        IndexOfKeyKept(init, c, k);
      }
      if c.repo !in prev {
        IndexOfKeyNew(init, c);
      }
      forall i, j | 0 <= i < j < |keys|
        ensures IndexOfKey(commits, RepoOf, keys[i]) < IndexOfKey(commits, RepoOf, keys[j]) < |commits|
      {
        assert keys[i] == prev[i] && prev[i] in prev;
        if j < |prev| {
          assert keys[j] == prev[j] && prev[j] in prev;
          assert InAppearanceOrder(prev, init);
          assert IndexOfKey(init, RepoOf, prev[i]) < IndexOfKey(init, RepoOf, prev[j]);
        }
      }
    }
  }

  /** A repository that has a commit first appears at a real index. */
  lemma IndexOfKeyPresent(s: seq<CommitRow>, k: string)
    requires exists w :: w in s && w.repo == k
    ensures IndexOfKey(s, RepoOf, k) < |s|
  {
    var w :| w in s && w.repo == k;
    var a :| 0 <= a < |s| && s[a] == w;
    assert RepoOf(s[a]) == k;
  }

  /** Appending a commit does not move the first appearance of a repository already present. */
  lemma IndexOfKeyKept(init: seq<CommitRow>, c: CommitRow, k: string)
    requires IndexOfKey(init, RepoOf, k) < |init|
    ensures IndexOfKey(init + [c], RepoOf, k) == IndexOfKey(init, RepoOf, k)
  {
    var s := init + [c];
    var i, i' := IndexOfKey(init, RepoOf, k), IndexOfKey(s, RepoOf, k);
    assert s[i] == init[i];
  }

  /** A repository first seen in the appended commit first appears at its index. */
  lemma IndexOfKeyNew(init: seq<CommitRow>, c: CommitRow)
    requires forall w :: w in init ==> w.repo != c.repo
    ensures IndexOfKey(init + [c], RepoOf, c.repo) == |init|
  {
    var s := init + [c];
    var i' := IndexOfKey(s, RepoOf, c.repo);
    assert s[|init|] == c;
  }

  /** `keys` and `byRepo` are the keys and the lists of `by_repo` after the commits `s`. */
  ghost predicate Grouped(keys: seq<string>, byRepo: map<string, seq<CommitRow>>, s: seq<CommitRow>) {
    && keys == FirstSeen(s)
    && (forall k :: k in byRepo <==> k in keys)
    && (forall k :: k in byRepo ==> byRepo[k] == WithKey(s, RepoOf, k))
  }

  /** The grouping loop: `by_repo.setdefault(commit.repo, [])` then `by_repo[commit.repo].append(commit)`. */
  method GroupByRepo(commits: seq<CommitRow>) returns (keys: seq<string>, byRepo: map<string, seq<CommitRow>>)
    ensures keys == FirstSeen(commits)
    ensures forall k :: k in byRepo <==> k in keys
    ensures forall k :: k in byRepo ==> byRepo[k] == WithKey(commits, RepoOf, k)
  {
    keys, byRepo := [], map[];
    for i := 0 to |commits|
      invariant Grouped(keys, byRepo, commits[..i])
    {
      var commit := commits[i];
      ghost var prefix := commits[..i];
      assert commits[..i + 1] == prefix + [commit];
      GroupedStep(keys, byRepo, prefix, commit);
      if commit.repo !in byRepo {
        keys := keys + [commit.repo];
        byRepo := byRepo[commit.repo := []];
      }
      byRepo := byRepo[commit.repo := byRepo[commit.repo] + [commit]];
    }
    assert commits[..|commits|] == commits;
  }

  /** One turn of the grouping loop keeps `Grouped`. */
  lemma GroupedStep(keys: seq<string>, byRepo: map<string, seq<CommitRow>>, prefix: seq<CommitRow>, commit: CommitRow)
    requires Grouped(keys, byRepo, prefix)
    ensures var keys' := if commit.repo in byRepo then keys else keys + [commit.repo];
            var m := if commit.repo in byRepo then byRepo else byRepo[commit.repo := []];
            Grouped(keys', m[commit.repo := m[commit.repo] + [commit]], prefix + [commit])
  {
    GroupStep(prefix, commit);
    if commit.repo !in byRepo {
      NoneWithKey(prefix, commit.repo);
    }
    var m := if commit.repo in byRepo then byRepo else byRepo[commit.repo := []];
    var after := m[commit.repo := m[commit.repo] + [commit]];
    forall k | k in after ensures after[k] == WithKey(prefix + [commit], RepoOf, k) {
      if k != commit.repo {
        assert k in byRepo && after[k] == byRepo[k];
      }
    }
  }

  /** One more commit: its repository joins the keys if new, and its group gains it at the end. */
  lemma GroupStep(prefix: seq<CommitRow>, commit: CommitRow)
    ensures FirstSeen(prefix + [commit]) ==
            if commit.repo in FirstSeen(prefix) then FirstSeen(prefix) else FirstSeen(prefix) + [commit.repo]
    ensures forall k :: WithKey(prefix + [commit], RepoOf, k) ==
                        WithKey(prefix, RepoOf, k) + (if commit.repo == k then [commit] else [])
  {
    assert (prefix + [commit])[..|prefix|] == prefix;
    forall k ensures WithKey(prefix + [commit], RepoOf, k) ==
                     WithKey(prefix, RepoOf, k) + (if commit.repo == k then [commit] else []) {
      WithKeySnoc(prefix, commit, RepoOf, k);
    }
  }

  lemma NoneWithKey(commits: seq<CommitRow>, k: string)
    requires k !in FirstSeen(commits)
    ensures WithKey(commits, RepoOf, k) == []
  {
    FirstSeenContents(commits);
    WithKeyNone(commits, RepoOf, k);
  }

  // ---------------------------------------------------------------- the result

  /** The tuple built for repository `k`: its first `Repos` row, that row's blurb, and its 5 newest commits. */
  ghost function MakeGroup(k: string, commits: seq<CommitRow>, repos: seq<RepoRow>, blurbs: seq<BlurbRow>): Group {
    var repo := LookupRepo(repos, k);
    Group(repo, if repo.Some? then LookupBlurb(blurbs, repo.value.id) else None,
          Newest(WithKey(commits, RepoOf, k), AuthorDate, StrLe, 5))
  }

  /** `grouped_commits` before its sort: one tuple per repository, in `by_repo` order. */
  ghost function AllGroups(commits: seq<CommitRow>, repos: seq<RepoRow>, blurbs: seq<BlurbRow>): seq<Group> {
    var keys := FirstSeen(commits);
    seq(|keys|, i requires 0 <= i < |keys| => MakeGroup(keys[i], commits, repos, blurbs))
  }

  /** What `get_grouped_commits` returns. */
  ghost function GroupedView(commits: seq<CommitRow>, repos: seq<RepoRow>, blurbs: seq<BlurbRow>): seq<Group> {
    Newest(AllGroups(commits, repos, blurbs), GroupDate, StrLe, 5)
  }

  method GetGroupedCommits(commits: seq<CommitRow>, repos: seq<RepoRow>, blurbs: seq<BlurbRow>)
    returns (grouped: seq<Group>)
    ensures grouped == GroupedView(commits, repos, blurbs)
  {
    var keys, byRepo := GroupByRepo(commits);
    ghost var all := AllGroups(commits, repos, blurbs);
    var groups: seq<Group> := [];
    for i := 0 to |keys|
      invariant groups == all[..i]
    {
      var repoCommits := byRepo[keys[i]];
      GroupAt(commits, repos, blurbs, keys[i], repoCommits);
      if repoCommits != [] {
        var repo := LookupRepo(repos, repoCommits[0].repo);
        var blurb: Option<BlurbRow>;
        if repo.Some? {
          blurb := LookupBlurb(blurbs, repo.value.id);
        } else {
          blurb := None;
        }
        var newest := Newest(repoCommits, AuthorDate, StrLe, 5);
        assert all[i] == MakeGroup(keys[i], commits, repos, blurbs);
        PrefixSnoc(all, i);
        groups := groups + [Group(repo, blurb, newest)];
      } else {
        assert false;
      }
    }
    assert all[..|keys|] == all;
    grouped := Newest(groups, GroupDate, StrLe, 5);
  }

  /** The tuple of repository `k`, computed from its list in `by_repo`. */
  lemma GroupAt(commits: seq<CommitRow>, repos: seq<RepoRow>, blurbs: seq<BlurbRow>, k: string, repoCommits: seq<CommitRow>)
    requires k in FirstSeen(commits) && repoCommits == WithKey(commits, RepoOf, k)
    ensures repoCommits != [] && repoCommits[0].repo == k
    ensures var repo := LookupRepo(repos, repoCommits[0].repo);
            MakeGroup(k, commits, repos, blurbs) ==
              Group(repo, if repo.Some? then LookupBlurb(blurbs, repo.value.id) else None,
                    Newest(repoCommits, AuthorDate, StrLe, 5))
  {
    GroupOfRepoIsNonEmpty(commits, k);
    assert repoCommits[0] in repoCommits;
  }

  /** A repository among the keys has at least one commit, and all its commits name it. */
  lemma GroupOfRepoIsNonEmpty(commits: seq<CommitRow>, k: string)
    requires k in FirstSeen(commits)
    ensures WithKey(commits, RepoOf, k) != []
    ensures forall c :: c in WithKey(commits, RepoOf, k) ==> c in commits && c.repo == k
  {
    FirstSeenContents(commits);
    WithKeyContents(commits, RepoOf, k);
    var c :| c in commits && c.repo == k;
    assert multiset(WithKey(commits, RepoOf, k))[c] == multiset(commits)[c] > 0;
  }

  // ---------------------------------------------------------------- properties

  /** `g` is the tuple of repository `k`: 1 to 5 of its commits, newest first, with the repository's
      first `Repos` row (or none) and that row's first blurb (none without a row). */
  ghost predicate IsGroupOf(g: Group, k: string, commits: seq<CommitRow>, repos: seq<RepoRow>, blurbs: seq<BlurbRow>) {
    && 1 <= |g.commits| <= 5
    && GroupRepo(g) == k
    && (forall c :: c in g.commits ==> c in commits && c.repo == k)
    && (forall i, j :: 0 <= i < j < |g.commits| ==> StrLe(g.commits[j].authorDate, g.commits[i].authorDate))
    && g.repo == LookupRepo(repos, k)
    && g.blurb == (if g.repo.Some? then LookupBlurb(blurbs, g.repo.value.id) else None)
  }

  /** The tuple built for a repository that has commits is a tuple of that repository. */
  lemma GroupOfRepoShape(k: string, commits: seq<CommitRow>, repos: seq<RepoRow>, blurbs: seq<BlurbRow>)
    requires k in FirstSeen(commits)
    ensures IsGroupOf(MakeGroup(k, commits, repos, blurbs), k, commits, repos, blurbs)
  {
    var g := MakeGroup(k, commits, repos, blurbs);
    var mine := WithKey(commits, RepoOf, k);
    GroupOfRepoIsNonEmpty(commits, k);
    StrLeTotalOrder();
    NewestSpec(mine, AuthorDate, StrLe, 5);
    NewestContents(mine, AuthorDate, StrLe, 5);
    forall c | c in g.commits ensures c in commits && c.repo == k {
      assert c in multiset(mine);
    }
    assert g.commits[0] in g.commits;
    forall i, j | 0 <= i < j < |g.commits| ensures StrLe(g.commits[j].authorDate, g.commits[i].authorDate) {
      assert StrLe(AuthorDate(g.commits[j]), AuthorDate(g.commits[i]));
    }
  }

  /** The commits of one tuple are that repository's newest: all of them when it has at most 5,
      and none left out is newer than one kept. */
  lemma GroupOfRepoNewest(k: string, commits: seq<CommitRow>, repos: seq<RepoRow>, blurbs: seq<BlurbRow>)
    ensures var g := MakeGroup(k, commits, repos, blurbs);
            var mine := WithKey(commits, RepoOf, k);
            && multiset(g.commits) <= multiset(mine)
            && (|mine| <= 5 ==> multiset(g.commits) == multiset(mine))
            && (forall y, x :: y in multiset(mine) - multiset(g.commits) && x in g.commits ==>
                                 StrLe(y.authorDate, x.authorDate))
            && (forall d :: WithKey(g.commits, AuthorDate, d) <= WithKey(mine, AuthorDate, d))
  {
    var g := MakeGroup(k, commits, repos, blurbs);
    var mine := WithKey(commits, RepoOf, k);
    StrLeTotalOrder();
    NewestSpec(mine, AuthorDate, StrLe, 5);
    NewestContents(mine, AuthorDate, StrLe, 5);
    forall y, x | y in multiset(mine) - multiset(g.commits) && x in g.commits ensures StrLe(y.authorDate, x.authorDate) {
      assert StrLe(AuthorDate(y), AuthorDate(x));
    }
  }

  /** The date a tuple is ranked by is the latest `author_date` of its repository. */
  lemma GroupDateIsLatest(k: string, commits: seq<CommitRow>, repos: seq<RepoRow>, blurbs: seq<BlurbRow>)
    requires k in FirstSeen(commits)
    ensures var g := MakeGroup(k, commits, repos, blurbs);
            forall c :: c in commits && c.repo == k ==> StrLe(c.authorDate, GroupDate(g))
  {
    var g := MakeGroup(k, commits, repos, blurbs);
    var mine := WithKey(commits, RepoOf, k);
    GroupOfRepoShape(k, commits, repos, blurbs);
    GroupOfRepoNewest(k, commits, repos, blurbs);
    WithKeyContents(commits, RepoOf, k);
    forall c | c in commits && c.repo == k ensures StrLe(c.authorDate, GroupDate(g)) {
      LatestOf(c, mine, g.commits);
    }
  }

  /** A commit of `mine` is no later than the first of the newest-first `kept`, whether kept or not. */
  lemma LatestOf(c: CommitRow, mine: seq<CommitRow>, kept: seq<CommitRow>)
    requires c in multiset(mine) && kept != []
    requires forall y, x :: y in multiset(mine) - multiset(kept) && x in kept ==> StrLe(y.authorDate, x.authorDate)
    requires forall i, j :: 0 <= i < j < |kept| ==> StrLe(kept[j].authorDate, kept[i].authorDate)
    ensures StrLe(c.authorDate, kept[0].authorDate)
  {
    assert kept[0] in kept;
    if c !in multiset(mine) - multiset(kept) {
      assert c in kept;
      var j :| 0 <= j < |kept| && kept[j] == c;
      if j == 0 { StrLeReflexive(c.authorDate); }
    }
  }

  lemma AllGroupsDistinct(commits: seq<CommitRow>, repos: seq<RepoRow>, blurbs: seq<BlurbRow>)
    ensures var all := AllGroups(commits, repos, blurbs);
            && Distinct(all)
            && forall g :: g in all ==> GroupRepo(g) in FirstSeen(commits) && g == MakeGroup(GroupRepo(g), commits, repos, blurbs)
  {
    var all := AllGroups(commits, repos, blurbs);
    var keys := FirstSeen(commits);
    FirstSeenContents(commits);
    forall i | 0 <= i < |all| ensures GroupRepo(all[i]) == keys[i] {
      GroupOfRepoShape(keys[i], commits, repos, blurbs);
    }
    forall i, j | 0 <= i < j < |all| ensures all[i] != all[j] {
      assert GroupRepo(all[i]) == keys[i] != keys[j] == GroupRepo(all[j]);
    }
    forall g | g in all ensures GroupRepo(g) in keys && g == MakeGroup(GroupRepo(g), commits, repos, blurbs) {
      var i :| 0 <= i < |all| && all[i] == g;
    }
  }

  /** The result: at most 5 tuples, each for a different repository that has commits, ordered so
      that the first commits' dates never increase. */
  lemma GroupedViewShape(commits: seq<CommitRow>, repos: seq<RepoRow>, blurbs: seq<BlurbRow>)
    ensures var r := GroupedView(commits, repos, blurbs);
            && |r| == Min(5, |FirstSeen(commits)|)
            && (forall i, j :: 0 <= i < j < |r| ==> StrLe(GroupDate(r[j]), GroupDate(r[i])))
            && (forall i, j :: 0 <= i < j < |r| ==> GroupRepo(r[i]) != GroupRepo(r[j]))
            && (forall g :: g in r ==> GroupRepo(g) in FirstSeen(commits) && g == MakeGroup(GroupRepo(g), commits, repos, blurbs))
  {
    var all := AllGroups(commits, repos, blurbs);
    var r := GroupedView(commits, repos, blurbs);
    StrLeTotalOrder();
    NewestSpec(all, GroupDate, StrLe, 5);
    NewestContents(all, GroupDate, StrLe, 5);
    AllGroupsDistinct(commits, repos, blurbs);
    forall i, j | 0 <= i < j < |r| ensures StrLe(GroupDate(r[j]), GroupDate(r[i])) {
    }
    forall g | g in r ensures g in all {
      assert g in multiset(r);
    }
    SubMultisetDistinct(all, r);
    forall i, j | 0 <= i < j < |r| ensures GroupRepo(r[i]) != GroupRepo(r[j]) {
      assert r[i] in r && r[j] in r;
    }
  }

  /** Every tuple returned is the tuple of its repository. */
  lemma GroupedViewGroups(commits: seq<CommitRow>, repos: seq<RepoRow>, blurbs: seq<BlurbRow>)
    ensures forall g :: g in GroupedView(commits, repos, blurbs) ==> IsGroupOf(g, GroupRepo(g), commits, repos, blurbs)
  {
    GroupedViewShape(commits, repos, blurbs);
    forall g | g in GroupedView(commits, repos, blurbs) ensures IsGroupOf(g, GroupRepo(g), commits, repos, blurbs) {
      GroupOfRepoShape(GroupRepo(g), commits, repos, blurbs);
    }
  }

  /** The 5 tuples kept have the latest first commits: all tuples when there are at most 5, none left
      out is later than one kept, and among equal dates the kept ones come first in `by_repo` order. */
  lemma GroupedViewKeepsNewest(commits: seq<CommitRow>, repos: seq<RepoRow>, blurbs: seq<BlurbRow>)
    ensures var all := AllGroups(commits, repos, blurbs);
            var r := GroupedView(commits, repos, blurbs);
            && multiset(r) <= multiset(all)
            && (|all| <= 5 ==> multiset(r) == multiset(all))
            && (forall y, x :: y in multiset(all) - multiset(r) && x in r ==> StrLe(GroupDate(y), GroupDate(x)))
            && (forall d :: WithKey(r, GroupDate, d) <= WithKey(all, GroupDate, d))
  {
    StrLeTotalOrder();
    NewestSpec(AllGroups(commits, repos, blurbs), GroupDate, StrLe, 5);
    NewestContents(AllGroups(commits, repos, blurbs), GroupDate, StrLe, 5);
  }
}
