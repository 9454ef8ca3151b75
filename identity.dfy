/**
 * The decision rule of the `--env-filter` script that `rewrite_git_history` hands
 * to `git filter-branch`: an author or committer whose lower-cased name equals
 * one of three configured old names takes the configured new identity.
 */
module Identity {
  import Ascii

  datatype Person = Person(name: string, email: string)

  /** The identity fields of one commit. */
  datatype CommitIdentity = CommitIdentity(author: Person, committer: Person)

  /**
   * The three old names are compared as configured (they are not lower-cased);
   * the author and the committer each have their own new identity.
   */
  datatype RemapConfig = RemapConfig(
    oldName1: string, oldName2: string, oldName3: string,
    newAuthor: Person, newCommitter: Person)

  /** `tr '[:upper:]' '[:lower:]'` of the name, compared with each old name. */
  predicate IsOldName(config: RemapConfig, name: string)
  {
    var lowered := Ascii.Lower(name);
    lowered == config.oldName1 || lowered == config.oldName2 || lowered == config.oldName3
  }

  /** Rewrites one side of a commit. */
  function RemapPerson(config: RemapConfig, person: Person, replacement: Person): (r: Person)
    ensures r == replacement || r == person
    ensures r != person ==> IsOldName(config, person.name)
    ensures IsOldName(config, person.name) ==> r == replacement
  {
    if IsOldName(config, person.name) then replacement else person
  }

  /** The env-filter applied to one commit: author and committer independently. */
  function Remap(config: RemapConfig, commit: CommitIdentity): (r: CommitIdentity)
    ensures IsOldName(config, commit.author.name) ==> r.author == config.newAuthor
    ensures !IsOldName(config, commit.author.name) ==> r.author == commit.author
    ensures IsOldName(config, commit.committer.name) ==> r.committer == config.newCommitter
    ensures !IsOldName(config, commit.committer.name) ==> r.committer == commit.committer
  {
    CommitIdentity(
      RemapPerson(config, commit.author, config.newAuthor),
      RemapPerson(config, commit.committer, config.newCommitter))
  }

  /**
   * Matching ignores ASCII case: two names equal after lower-casing ("ALICE",
   * "Alice") get the same decision, so both become the new identity or neither
   * changes.
   */
  lemma CaseInsensitive(config: RemapConfig, a: string, b: string)
    requires Ascii.Lower(a) == Ascii.Lower(b)
    ensures IsOldName(config, a) <==> IsOldName(config, b)
  {
  }

  /**
   * Applying the rule to its own output changes nothing: a rewritten side carries
   * the new identity, which the rule maps to itself or leaves alone.
   */
  lemma RemapIdempotent(config: RemapConfig, commit: CommitIdentity)
    ensures Remap(config, Remap(config, commit)) == Remap(config, commit)
  {
  }

  /**
   * An old name with an upper-case letter never matches, since it is compared
   * with a lower-cased name: only the other two old names can rewrite.
   */
  lemma UpperCaseOldNameInert(config: RemapConfig, name: string, k: nat)
    requires k < |config.oldName1| && Ascii.IsUpper(config.oldName1[k])
    ensures IsOldName(config, name) <==>
            Ascii.Lower(name) == config.oldName2 || Ascii.Lower(name) == config.oldName3
  {
  }

  /** The author's rewrite does not depend on the committer, and vice versa. */
  lemma SidesIndependent(config: RemapConfig, a1: Person, c1: Person, a2: Person, c2: Person)
    ensures Remap(config, CommitIdentity(a1, c1)).author == Remap(config, CommitIdentity(a1, c2)).author
    ensures Remap(config, CommitIdentity(a1, c1)).committer == Remap(config, CommitIdentity(a2, c1)).committer
  {
  }

  /** With "alice" configured, an author named "ALICE" or "Alice" takes the new identity. */
  lemma OldNameAnyCase(config: RemapConfig, email: string, committer: Person)
    requires config.oldName1 == "alice"
    ensures Remap(config, CommitIdentity(Person("ALICE", email), committer)).author == config.newAuthor
    ensures Remap(config, CommitIdentity(Person("Alice", email), committer)).author == config.newAuthor
  {
    assert Ascii.Lower("ALICE") == "alice";
    assert Ascii.Lower("Alice") == "alice";
  }
}
