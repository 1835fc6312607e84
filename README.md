# Contributor check for release notes

A model of Gradle's `CheckContributorsInReleaseNotes` build task, which
fails the build when a pull request of the release was contributed by
someone the release notes do not credit. The task collects the logins
credited in the release notes and the logins of the pull-request
contributors. It puts each list into a `TreeSet<String>`, which removes
duplicates and sorts. It then subtracts the release-note set from the
pull-request set and throws when anything is left. The exception message
prints the release-note set, the pull-request set and the missing logins.

The model has three modules:

- `StringOrder` (StringOrder.dfy): `String.compareTo`, the order a
  `TreeSet<String>` sorts by, as the predicate `Less`, proved equal to a
  non-recursive first-difference definition and to be a strict total order.
- `TreeSets` (TreeSets.dfy): a tree set as the strictly ascending sequence
  of its elements. It covers `add`, `contains`, the `TreeSet(collection)`
  constructor and Kotlin's `Set.minus`, and proves that a tree set is
  determined by its elements.
- `CheckContributors` (CheckContributors.dfy): the task action `Check`.
  It returns `Ok`, or `Mismatch(releaseNotes, pullRequests, missing)` in
  place of the exception. Lemmas cover order, duplicates, extra credits and
  case sensitivity. `Check` is a function, so running it twice on the same
  inputs gives the same outcome.

## Model

| member | source | states |
|---|---|---|
| `StringOrder.Less` | build-logic/build-update-utils/src/main/kotlin/gradlebuild/buildutils/tasks/CheckContributorsInReleaseNotes.kt:25-26 | `a` sorts strictly before `b` exactly when `a` is a proper prefix of `b` or, at the first position where they differ, `a` has the smaller character; characters are compared exactly, with no case folding |
| `StringOrder.LessIrreflexive` | build-logic/build-update-utils/src/main/kotlin/gradlebuild/buildutils/tasks/CheckContributorsInReleaseNotes.kt:25-26 | no login sorts before itself, so a tree set never holds a login twice |
| `StringOrder.LessTransitive` | build-logic/build-update-utils/src/main/kotlin/gradlebuild/buildutils/tasks/CheckContributorsInReleaseNotes.kt:25-26 | the string order used for sorting is transitive |
| `StringOrder.LessTotal` | build-logic/build-update-utils/src/main/kotlin/gradlebuild/buildutils/tasks/CheckContributorsInReleaseNotes.kt:25-26 | any two different logins are ordered one way or the other |
| `StringOrder.LessAsymmetric` | build-logic/build-update-utils/src/main/kotlin/gradlebuild/buildutils/tasks/CheckContributorsInReleaseNotes.kt:25-26 | two logins are never each sorted before the other |
| `TreeSets.Insert` | build-logic/build-update-utils/src/main/kotlin/gradlebuild/buildutils/tasks/CheckContributorsInReleaseNotes.kt:25-26 | adding a login keeps the set strictly ascending, adds exactly that login, and leaves the set unchanged when the login is already there |
| `TreeSets.Contains` | build-logic/build-update-utils/src/main/kotlin/gradlebuild/buildutils/tasks/CheckContributorsInReleaseNotes.kt:27 | the membership test on an ascending set answers true exactly when the login is in the set, even though it stops at the first larger element |
| `TreeSets.FromSeq` | build-logic/build-update-utils/src/main/kotlin/gradlebuild/buildutils/tasks/CheckContributorsInReleaseNotes.kt:25-26 | building a tree set from a list gives a strictly ascending sequence holding exactly the list's logins |
| `TreeSets.Minus` | build-logic/build-update-utils/src/main/kotlin/gradlebuild/buildutils/tasks/CheckContributorsInReleaseNotes.kt:27 | the difference is strictly ascending and holds exactly the logins of the first set that the second lacks |
| `TreeSets.SortedUnique` | build-logic/build-update-utils/src/main/kotlin/gradlebuild/buildutils/tasks/CheckContributorsInReleaseNotes.kt:25-26 | two strictly ascending sequences with the same elements are equal, so the reported order is unique |
| `TreeSets.FromSeqCanonical` | build-logic/build-update-utils/src/main/kotlin/gradlebuild/buildutils/tasks/CheckContributorsInReleaseNotes.kt:25-26 | lists with the same logins, in any order and with any repetition, give the same tree set |
| `CheckContributors.Logins` | build-logic/build-update-utils/src/main/kotlin/gradlebuild/buildutils/tasks/CheckContributorsInReleaseNotes.kt:25-26 | mapping contributors to logins gives, position by position, each contributor's login, so the result has one login per contributor and exactly the contributors' logins |
| `CheckContributors.Check` | build-logic/build-update-utils/src/main/kotlin/gradlebuild/buildutils/tasks/CheckContributorsInReleaseNotes.kt:24-40 | the check passes exactly when every pull-request login is a release-note login. On failure it reports both full sets and exactly the uncredited pull-request logins, each strictly ascending; the missing logins are a non-empty subset of the pull-request logins, disjoint from the release notes |
| `CheckContributors.CheckDependsOnlyOnLoginSets` | build-logic/build-update-utils/src/main/kotlin/gradlebuild/buildutils/tasks/CheckContributorsInReleaseNotes.kt:25-27 | the outcome, including the reported sequences, depends only on the two sets of logins |
| `CheckContributors.CheckIgnoresOrder` | build-logic/build-update-utils/src/main/kotlin/gradlebuild/buildutils/tasks/CheckContributorsInReleaseNotes.kt:25-27 | permuting either contributor list leaves the outcome unchanged |
| `CheckContributors.CheckIgnoresDuplicateReleaseNoteCredit` | build-logic/build-update-utils/src/main/kotlin/gradlebuild/buildutils/tasks/CheckContributorsInReleaseNotes.kt:25 | inserting a second copy of a credited contributor anywhere in the release-note list leaves the outcome unchanged |
| `CheckContributors.CheckIgnoresDuplicatePullRequestAuthor` | build-logic/build-update-utils/src/main/kotlin/gradlebuild/buildutils/tasks/CheckContributorsInReleaseNotes.kt:26 | inserting a second copy of a pull-request contributor anywhere in the pull-request list leaves the outcome unchanged |
| `CheckContributors.ExtraReleaseNoteCreditsNeverFail` | build-logic/build-update-utils/src/main/kotlin/gradlebuild/buildutils/tasks/CheckContributorsInReleaseNotes.kt:27-29 | replacing the release notes by any list whose logins include the old ones, wherever the extra credits sit, never turns a passing check into a failing one |
| `CheckContributors.DifferentLoginIsNotCredited` | build-logic/build-update-utils/src/main/kotlin/gradlebuild/buildutils/tasks/CheckContributorsInReleaseNotes.kt:25-27 | a release-note login different from the pull-request login, letter case included, does not credit it, and the failure names exactly that pull-request login |
| `CheckContributors.CaseSensitiveExample` | build-logic/build-update-utils/src/main/kotlin/gradlebuild/buildutils/tasks/CheckContributorsInReleaseNotes.kt:25-27 | "Alice" in the release notes does not credit the pull-request author "alice" |
| `CheckContributors.DuplicatePullRequestLoginReportedOnce` | build-logic/build-update-utils/src/main/kotlin/gradlebuild/buildutils/tasks/CheckContributorsInReleaseNotes.kt:26-34 | a pull-request login listed twice with empty release notes is reported once, in both the pull-request set and the missing set |
| `CheckContributors.SameLoginsReorderedPass` | build-logic/build-update-utils/src/main/kotlin/gradlebuild/buildutils/tasks/CheckContributorsInReleaseNotes.kt:25-29 | release notes crediting "alice" and "bob" pass for pull requests by "bob" and "alice" |
| `CheckContributors.UncreditedAuthorReported` | build-logic/build-update-utils/src/main/kotlin/gradlebuild/buildutils/tasks/CheckContributorsInReleaseNotes.kt:25-34 | for any credited login sorting before an uncredited author, pull requests by that author and the credited login fail, reporting the credited login, both logins in ascending order, and the author |
| `CheckContributors.UncreditedCarolReported` | build-logic/build-update-utils/src/main/kotlin/gradlebuild/buildutils/tasks/CheckContributorsInReleaseNotes.kt:25-34 | release notes crediting "alice" fail for pull requests by "carol" and "alice", reporting ["alice"], ["alice", "carol"] and ["carol"] |
| `CheckContributors.CreditsWithoutPullRequestsPass` | build-logic/build-update-utils/src/main/kotlin/gradlebuild/buildutils/tasks/CheckContributorsInReleaseNotes.kt:27-29 | release notes crediting "eve" and "frank" pass when there are no pull requests |

## Left out

- Where the two contributor lists come from: `getContributorsInReleaseNotes()` and `getContributorsFromPullRequests()` are inherited from `AbstractCheckOrUpdateContributorsInReleaseNote`, which is not part of this model. They read the release notes file and query the pull-request service, and here they are the two inputs of `Check`.
- `CheckContributors.Contributor` keeps only `login`, the one field the check reads; the contributor type's other fields are not part of this model.
- The Gradle task plumbing: the `@TaskAction` annotation, the abstract base class and the `releaseNotes` file property.
- The exception itself (`IllegalStateException`), the wording of its message, `trimIndent()` and the hint to run `./gradlew updateContributorsInReleaseNote`. The failure is the `Mismatch` value carrying the three printed sets in their printed order.
- `StringOrder.Less` compares Dafny characters, which are Unicode code points. Java's `String.compareTo` compares UTF-16 code units. A Java string can also hold unpaired surrogates, which no Dafny `string` can represent, so such logins are outside the model. The two orders differ only between characters outside the Basic Multilingual Plane and characters from U+E000 to U+FFFF, and GitHub logins use only ASCII letters, digits and hyphens.
- The red-black tree inside `TreeSet`: a set is its ascending element sequence, and `contains` is a scan that stops early rather than a descent through the tree. Both give the same answers and the same iteration order.
