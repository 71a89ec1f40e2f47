/**
 * Branch-name derivation from the symbolic name of HEAD.  The same code
 * appears in both the older and the newer status module; opening the
 * repository and reading HEAD is not modelled, so the reference name is an
 * input.
 */
module Refs {
  import opened Strings

  /** The prefix of local branch references. */
  const HeadsPrefix: string := "refs/heads/"

  /**
   * `branch_name`: a local-branch reference loses every leading copy of
   * `refs/heads/`; any other reference (a detached HEAD, a remote or tag
   * reference) is shown as it is.
   */
  function BranchName(refName: string): (name: string)
    ensures !StartsWith(refName, HeadsPrefix) ==> name == refName
    ensures !StartsWith(name, HeadsPrefix)
    ensures |name| <= |refName| && name == refName[|refName| - |name|..]
  {
    if StartsWith(refName, HeadsPrefix) then TrimStartMatches(refName, HeadsPrefix)
    else refName
  }

  /**
   * The branch name is exactly what is left after the leading run of
   * `refs/heads/` copies: whenever the reference is `k` copies followed by
   * text that does not itself start with `refs/heads/`, that text is the
   * branch name (for `k == 0` this is the unchanged case).
   */
  lemma BranchNameStripsLeadingCopies(refName: string, k: nat, rest: string)
    requires refName == Repeat(HeadsPrefix, k) + rest
    requires !StartsWith(rest, HeadsPrefix)
    ensures BranchName(refName) == rest
  {
    if k > 0 {
      assert Repeat(HeadsPrefix, k) == HeadsPrefix + Repeat(HeadsPrefix, k - 1);
      assert refName == HeadsPrefix + (Repeat(HeadsPrefix, k - 1) + rest);
      PrefixThenRest(HeadsPrefix, Repeat(HeadsPrefix, k - 1) + rest);
    }
    TrimStartMatchesUnique(refName, HeadsPrefix, k, rest);
  }

  /**
   * Conversely, a local-branch reference is some positive number of
   * `refs/heads/` copies followed by the branch name.
   */
  lemma BranchNameOfLocalBranch(refName: string)
    requires StartsWith(refName, HeadsPrefix)
    ensures LeadingCopies(refName, HeadsPrefix) > 0
    ensures refName == Repeat(HeadsPrefix, LeadingCopies(refName, HeadsPrefix)) + BranchName(refName)
  {
    TrimStartMatchesStripsCopies(refName, HeadsPrefix);
  }

  /** A doubled prefix is stripped twice. */
  lemma BranchNameDoubledPrefix()
    ensures BranchName("refs/heads/refs/heads/x") == "x"
  {
    BranchNameStripsLeadingCopies("refs/heads/refs/heads/x", 2, "x");
  }
}
