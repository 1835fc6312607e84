/**
 * The Gradle task that checks that every contributor of the release's pull
 * requests is credited in the release notes. The two contributor lists come
 * from collaborators outside this model (a release-notes parser and a
 * pull-request lookup) and are taken here as plain inputs; the exception the
 * task throws on a mismatch is the `Mismatch` outcome, carrying the three
 * sets the failure message prints.
 */
module CheckContributors {
  import opened StringOrder
  import opened TreeSets

  /** A contributor as the check sees it: only its login is compared. */
  datatype Contributor = Contributor(login: string)

  datatype Outcome =
    | Ok
      /** The check fails; the fields are the sets as the message prints them. */
    | Mismatch(releaseNotes: seq<string>, pullRequests: seq<string>, missing: seq<string>)

  /** The logins of a list of contributors, as a set. */
  ghost function LoginSet(cs: seq<Contributor>): set<string>
  {
    set c | c in cs :: c.login
  }

  /** `contributors.map { it.login }`. */
  function Logins(cs: seq<Contributor>): (r: seq<string>)
    ensures |r| == |cs|
    ensures forall i | 0 <= i < |cs| :: r[i] == cs[i].login
    ensures Elems(r) == LoginSet(cs)
  {
    if cs == [] then []
    else
      var rest := Logins(cs[1..]);
      assert cs == [cs[0]] + cs[1..];
      assert LoginSet(cs) == {cs[0].login} + LoginSet(cs[1..]);
      [cs[0].login] + rest
  }

  /**
   * The task action: sort and deduplicate both login lists, subtract the
   * release-note logins from the pull-request logins, and fail when
   * anything is left. Failure happens exactly when some pull-request login
   * is not in the release notes; the failure carries both full sets and
   * exactly the uncredited logins, each in ascending order.
   */
  function Check(inReleaseNotes: seq<Contributor>, fromPullRequests: seq<Contributor>): (r: Outcome)
    ensures r.Ok? <==> LoginSet(fromPullRequests) <= LoginSet(inReleaseNotes)
    ensures r.Mismatch? ==>
      && StrictlySorted(r.releaseNotes) && Elems(r.releaseNotes) == LoginSet(inReleaseNotes)
      && StrictlySorted(r.pullRequests) && Elems(r.pullRequests) == LoginSet(fromPullRequests)
      && StrictlySorted(r.missing)
      && Elems(r.missing) == LoginSet(fromPullRequests) - LoginSet(inReleaseNotes)
      && r.missing != []
  {
    var notes := FromSeq(Logins(inReleaseNotes));
    var prs := FromSeq(Logins(fromPullRequests));
    var missing := Minus(prs, notes);
    if |missing| > 0 then
      assert missing[0] in Elems(missing);
      Mismatch(notes, prs, missing)
    else
      assert Elems(missing) == {};
      Ok
  }

  /**
   * The outcome depends only on which logins each list holds, so two runs
   * over lists with the same logins report the same thing.
   */
  lemma CheckDependsOnlyOnLoginSets(n1: seq<Contributor>, p1: seq<Contributor>, n2: seq<Contributor>, p2: seq<Contributor>)
    requires LoginSet(n1) == LoginSet(n2) && LoginSet(p1) == LoginSet(p2)
    ensures Check(n1, p1) == Check(n2, p2)
  {
    var r1, r2 := Check(n1, p1), Check(n2, p2);
    if r1.Mismatch? {
      SortedUnique(r1.releaseNotes, r2.releaseNotes);
      SortedUnique(r1.pullRequests, r2.pullRequests);
      SortedUnique(r1.missing, r2.missing);
    }
  }

  /** Reordering either contributor list does not change the outcome. */
  lemma CheckIgnoresOrder(n1: seq<Contributor>, p1: seq<Contributor>, n2: seq<Contributor>, p2: seq<Contributor>)
    requires multiset(n1) == multiset(n2) && multiset(p1) == multiset(p2)
    ensures Check(n1, p1) == Check(n2, p2)
  {
    assert forall c :: c in n1 <==> c in multiset(n1);
    assert forall c :: c in n2 <==> c in multiset(n2);
    assert forall c :: c in p1 <==> c in multiset(p1);
    assert forall c :: c in p2 <==> c in multiset(p2);
    assert LoginSet(n1) == LoginSet(n2);
    assert LoginSet(p1) == LoginSet(p2);
    CheckDependsOnlyOnLoginSets(n1, p1, n2, p2);
  }

  /**
   * Listing a release-note contributor a second time, at any position,
   * does not change the outcome.
   */
  lemma CheckIgnoresDuplicateReleaseNoteCredit(notes: seq<Contributor>, prs: seq<Contributor>, k: nat, c: Contributor)
    requires c in notes && k <= |notes|
    ensures Check(notes[..k] + [c] + notes[k..], prs) == Check(notes, prs)
  {
    assert notes == notes[..k] + notes[k..];
    assert LoginSet(notes[..k] + [c] + notes[k..]) == LoginSet(notes);
    CheckDependsOnlyOnLoginSets(notes[..k] + [c] + notes[k..], prs, notes, prs);
  }

  /**
   * Listing a pull-request contributor a second time, at any position,
   * does not change the outcome.
   */
  lemma CheckIgnoresDuplicatePullRequestAuthor(notes: seq<Contributor>, prs: seq<Contributor>, k: nat, c: Contributor)
    requires c in prs && k <= |prs|
    ensures Check(notes, prs[..k] + [c] + prs[k..]) == Check(notes, prs)
  {
    assert prs == prs[..k] + prs[k..];
    assert LoginSet(prs[..k] + [c] + prs[k..]) == LoginSet(prs);
    CheckDependsOnlyOnLoginSets(notes, prs[..k] + [c] + prs[k..], notes, prs);
  }

  /**
   * Crediting more people in the release notes never makes a passing check
   * fail: the subtraction only goes from pull requests to release notes.
   */
  lemma ExtraReleaseNoteCreditsNeverFail(notes: seq<Contributor>, moreNotes: seq<Contributor>, prs: seq<Contributor>)
    requires Check(notes, prs).Ok? && LoginSet(notes) <= LoginSet(moreNotes)
    ensures Check(moreNotes, prs).Ok?
  {
  }

  /** A sorted sequence holding exactly one login is that login alone. */
  lemma SortedSingleton(s: seq<string>, x: string)
    requires StrictlySorted(s) && Elems(s) == {x}
    ensures s == [x]
  {
    SortedUnique(s, [x]);
  }

  /**
   * Logins are compared exactly: a release-note login that differs from a
   * pull-request login in any way, letter case included, does not credit
   * it, and the failure names the pull-request login.
   */
  lemma DifferentLoginIsNotCredited(noted: string, author: string)
    requires noted != author
    ensures Check([Contributor(noted)], [Contributor(author)]) == Mismatch([noted], [author], [author])
  {
    var r := Check([Contributor(noted)], [Contributor(author)]);
    assert LoginSet([Contributor(noted)]) == {noted};
    assert LoginSet([Contributor(author)]) == {author};
    SortedSingleton(r.releaseNotes, noted);
    SortedSingleton(r.pullRequests, author);
    SortedSingleton(r.missing, author);
  }

  /** "Alice" in the release notes does not credit the pull-request author "alice". */
  lemma CaseSensitiveExample()
    ensures Check([Contributor("Alice")], [Contributor("alice")]) == Mismatch(["Alice"], ["alice"], ["alice"])
  {
  }

  /** Repeated pull-request logins are reported once. */
  lemma DuplicatePullRequestLoginReportedOnce(author: string)
    ensures Check([], [Contributor(author), Contributor(author)]) == Mismatch([], [author], [author])
  {
    var r := Check([], [Contributor(author), Contributor(author)]);
    assert LoginSet([]) == {};
    assert LoginSet([Contributor(author), Contributor(author)]) == {author};
    SortedUnique(r.releaseNotes, []);
    SortedSingleton(r.pullRequests, author);
    SortedSingleton(r.missing, author);
  }

  /** The same logins in another order pass. */
  lemma SameLoginsReorderedPass()
    ensures Check([Contributor("alice"), Contributor("bob")], [Contributor("bob"), Contributor("alice")]) == Ok
  {
  }

  /**
   * A pull-request author missing from the release notes is reported, and
   * every reported set is in ascending order whatever the input order.
   */
  lemma UncreditedAuthorReported(noted: string, author: string)
    requires Less(noted, author)
    ensures Check([Contributor(noted)], [Contributor(author), Contributor(noted)])
         == Mismatch([noted], [noted, author], [author])
  {
    var notes, prs := [Contributor(noted)], [Contributor(author), Contributor(noted)];
    var r := Check(notes, prs);
    LessIrreflexive(noted);
    assert LoginSet(notes) == {noted};
    assert LoginSet(prs) == {noted, author};
    assert Contributor(author) in prs;
    SortedSingleton(r.releaseNotes, noted);
    SortedSingleton(r.missing, author);
    SortedUnique(r.pullRequests, [noted, author]);
  }

  /** "carol" is reported when only "alice" is credited. */
  lemma UncreditedCarolReported()
    ensures Check([Contributor("alice")], [Contributor("carol"), Contributor("alice")])
         == Mismatch(["alice"], ["alice", "carol"], ["carol"])
  {
    assert Less("alice", "carol");
    UncreditedAuthorReported("alice", "carol");
  }

  /** Release-note credits with no pull requests at all pass. */
  lemma CreditsWithoutPullRequestsPass()
    ensures Check([Contributor("eve"), Contributor("frank")], []) == Ok
  {
  }
}
