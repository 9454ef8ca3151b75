# bitbucket-to-github migration: a Dafny model of `migrate.py`

`migrate.py` lists every repository of a Bitbucket workspace and moves each one
to GitHub. For each repository it works out a GitHub name. It creates the
GitHub repository when the destination is missing or empty. Then it mirror-clones
the source with the password spliced into the clone URL, strips large blobs,
rewrites author and committer identities, and pushes the mirror. It unarchives
the destination before the push and archives it after.

This project models the logic inside that script. The HTTP calls, the clock and
the `git`/`rm` subprocesses are inputs to the model or entries in a step trace.

- `Naming` (`naming.dfy`): `create_github_name` and `get_github_origin`.
  - `Text` models Python's `split`, `join` and `replace` for one-character separators.
  - `Ascii` models `lower` and `isdigit`.
- `CloneUrl` (`clone_url.dfy`): the credential splice at the top of `migrate`.
- `Catalog` (`catalog.dfy`): `get_bitbucket_repos_page` and `get_bitbucket_repos`.
  - Page fetches are a sequence of replies, answered in request order.
  - The lister is a method with the source's loops: the cursor loop and the two nested loops that keep https clone links.
- `Destination` (`destination.dfy`): `is_github_repo_empty`, and the wait and timestamp arithmetic of `create_github_repo`. Time is integer milliseconds.
- `Identity` (`identity.dfy`): the decision rule of the `--env-filter` script that `rewrite_git_history` hands to `git filter-branch`.
- `Migration` (`migration.dfy`): `migrate` and the `__main__` loop.
  - `Migrate` and `MigrateAll` are methods that build a trace of steps.
  - `MigrationOf` and `RunOf` are the functions they are proved against.
  - Lemmas state ordering, early exit, rate limiting and preparation of every push.

Three behaviours of the code worth stating:

- A status other than 200 or 404 from the emptiness query counts as "not empty". Creation is skipped, and the clone, rewrite and push still run.
- A space inside a name is dropped, not turned into a separator: "Payments API" becomes `bb_paymentsapi`.
- A clone URL without '@' raises an uncaught IndexError in the splice. This ends the whole run, not just that repository (`RunStopsAtBadUrl`).

## Model

| member | source | states |
|---|---|---|
| `Text.Split` | migrate.py:60 | `split` gives at least one piece; no piece holds the separator; there is exactly one piece iff the separator does not occur |
| `Text.Join` | migrate.py:64 | `sep.join(parts)`, defined recursively; its properties are the round trips `Text.JoinSplit` and `Text.SplitJoin` and the append step `Text.JoinSnoc` |
| `Text.JoinSplit` | migrate.py:60-64 | joining the pieces of a split with the same separator gives back the original string |
| `Text.SplitJoin` | migrate.py:60-64 | splitting the join of separator-free pieces gives back the pieces |
| `Text.Remove` | migrate.py:64 | `replace(c, "")` keeps exactly the characters other than `c`, each as often as before |
| `Ascii.Lower` | migrate.py:64 | lower-casing keeps the length, maps each character by ASCII `lower`, and leaves no upper-case letter |
| `Naming.Normalize` | migrate.py:64 | the lower-cased, space-free text holds no ' ' and no upper-case letter |
| `Naming.NormalizeConcat` | migrate.py:64 | lower-casing and dropping spaces distribute over concatenation |
| `Naming.NormalizeUnchanged` | migrate.py:64 | text that is already lower-case and space-free is left as it is |
| `Naming.MoveLeadingNumber` | migrate.py:61-63 | the `isdigit` test and the `pop(0)`/`append` of the first piece, defined directly; its effect is stated by `Naming.NameWithLeadingNumber` and `Naming.NameWithoutLeadingNumber` |
| `Naming.CreateGithubName` | migrate.py:59-64 | `create_github_name`, defined as split, move, join, lower-case, drop spaces, prefix; its properties are `Naming.NameCharacters`, `Naming.NamePrefix`, `Naming.NameWithoutLeadingNumber`, `Naming.NameWithLeadingNumber`, `Naming.NameIsNumber` and `Naming.NameContent` |
| `Naming.NameCharacters` | migrate.py:59-64 | a translated name contains no ' ' and no upper-case ASCII letter |
| `Naming.NamePrefix` | migrate.py:64 | every translated name starts with `bb_` |
| `Naming.NameWithoutLeadingNumber` | migrate.py:60-64 | when the first `_` piece is not all digits, the result is `bb_` plus the whole name lower-cased without spaces |
| `Naming.NameWithLeadingNumber` | migrate.py:60-64 | a leading all-digit piece and its `_` move to the end: `number_rest` gives `bb_` + normalized `rest_number` |
| `Naming.NameIsNumber` | migrate.py:60-64 | a name that is only digits becomes `bb_` followed by the name |
| `Naming.JobNumberMovesToEnd` | migrate.py:60-64 | worked example: "123_build_tool" becomes "bb_build_tool_123" |
| `Naming.NameContent` | migrate.py:59-64 | after the prefix, the result holds exactly the characters of the lower-cased name other than spaces, with their counts |
| `Naming.SpaceDropped` | migrate.py:64 | a space between two parts disappears without leaving a separator |
| `Naming.GithubOrigin` | migrate.py:66-67 | the origin URL decodes back to the user's repository name |
| `Naming.OriginInjective` | migrate.py:66-67 | distinct repository names have distinct origin URLs |
| `CloneUrl.SpliceCredentials` | migrate.py:211-219 | the splice fails (IndexError) exactly when the URL holds no '@' |
| `CloneUrl.SpliceOneAt` | migrate.py:211-219 | with exactly one '@', the result is the part before it, ':', the password, '@', and the rest |
| `CloneUrl.SpliceDropsAfterSecondAt` | migrate.py:211-219 | everything from a second '@' on is lost |
| `Catalog.CatalogUrl` | migrate.py:41 | the catalog URL of the workspace, defined as the API root followed by the workspace name; `Catalog.GetBitbucketRepos` states that it is the first request |
| `Catalog.FetchPage` | migrate.py:31-37 | a page is returned exactly when its request succeeded with status 200, and then it is that reply's body |
| `Catalog.Listing` | migrate.py:41-50 | the values the cursor walk collects, defined page by page; its properties are `Catalog.ListingAlongChain`, `Catalog.PartialListing` and `Catalog.LastPage`, and `Catalog.GetBitbucketRepos` is proved against it |
| `Catalog.LinkRecords` | migrate.py:53-55 | the records of one repository's https clone links, defined link by link; `Catalog.AppendLinkRecords` is proved against it |
| `Catalog.HttpsRecords` | migrate.py:52-55 | the records of all repositories, defined repository by repository; its properties are `Catalog.HttpsRecordsConcat` and `Catalog.HttpsRecordsMembership` |
| `Catalog.GetBitbucketRepos` | migrate.py:39-57 | the records are the https records of the walked listing; the requests are the catalog URL then each page's `next` cursor, until a request fails or a page has no cursor |
| `Catalog.AppendLinkRecords` | migrate.py:53-55 | the inner loop appends one record per clone link named "https", in link order |
| `Catalog.CollectHttpsRecords` | migrate.py:52-55 | the nested loops produce the https records of all repositories, in repository order |
| `Catalog.HttpsRecordsConcat` | migrate.py:52-55 | the records of concatenated pages are the concatenated records |
| `Catalog.HttpsRecordsMembership` | migrate.py:52-55 | a record is listed iff some repository has a clone link named "https" with that URL; a repository without one adds nothing |
| `Catalog.ListingAlongChain` | migrate.py:42-50 | along successful pages with cursors, the listing is their values in page order followed by the rest of the walk |
| `Catalog.PartialListing` | migrate.py:42-50 | the first failed page ends the walk and the values of the pages before it are kept; a failing first page gives nothing |
| `Catalog.LastPage` | migrate.py:44-50 | a page without a `next` cursor is the last one read |
| `Destination.IsGithubRepoEmpty` | migrate.py:69-84 | the destination reads as empty iff it exists with size 0 or is missing (404); every other status reads as not empty |
| `Destination.CreateIssueTime` | migrate.py:86-90 | the POST goes out no earlier than the clock and no earlier than the last create plus 2 s, and waits at most 2 s when the clock is not behind |
| `Destination.CreateGithubRepo` | migrate.py:86-107 | success iff status 201; the returned timestamp is refreshed, no earlier than the POST, on success and failure alike |
| `Destination.ConsecutiveCreatesSpaced` | migrate.py:86-107 | two consecutive create calls, the second given the first's timestamp, are at least 2 s apart |
| `Identity.RemapPerson` | migrate.py:172-181 | one side is replaced by the new identity iff its lower-cased name equals an old name, and is otherwise unchanged |
| `Identity.Remap` | migrate.py:172-181 | the author and the committer are each rewritten by their own test, to their own new identity |
| `Identity.CaseInsensitive` | migrate.py:172-174 | names equal after ASCII lower-casing get the same decision |
| `Identity.RemapIdempotent` | migrate.py:172-181 | applying the rule twice is the same as applying it once |
| `Identity.UpperCaseOldNameInert` | migrate.py:172-174 | an old name with an upper-case letter can never match |
| `Identity.SidesIndependent` | migrate.py:174-181 | the author's result does not depend on the committer, and vice versa |
| `Identity.IsOldName` | migrate.py:172-174 | the lower-cased name equals one of the three old names as configured; its properties are `Identity.CaseInsensitive` and `Identity.UpperCaseOldNameInert` |
| `Identity.OldNameAnyCase` | migrate.py:172-176 | worked example: with "alice" configured, authors named "ALICE" and "Alice" both take the new identity |
| `Migration.Pipeline` | migrate.py:234-251 | the post-gate sequence has nine steps, none of them a create call |
| `Migration.WorkDir` | migrate.py:234 | the working directory, `tmp_data/` followed by the GitHub name (see Left out for `abspath`); `Migration.MigrationPushesPrepared` states that the delete, clone, filter, rewrite, lfs, push and final delete all use it |
| `Migration.MigrationOf` | migrate.py:210-252 | `migrate` as a function of the configuration, the record, the incoming timestamp and the answers; its properties are `Migration.MigrationGate`, `Migration.MigrationSteps`, `Migration.MigrationCreateTime` and `Migration.MigrationPushesPrepared`, and `Migration.Migrate` is proved against it |
| `Migration.MigrationGate` | migrate.py:210-232 | abort iff the URL has no '@'; creation is attempted iff the destination reads as empty; the timestamp moves only with a create call |
| `Migration.MigrationSteps` | migrate.py:225-252 | a failed creation returns before any delete, clone or push; otherwise the trace is the optional create followed by delete, clone, remove-large-files, rewrite, lfs, unarchive, push, archive, delete |
| `Migration.MigrationCreateTime` | migrate.py:225-232 | a create call is the first step, is issued at least 2 s after the incoming timestamp, and is no later than the timestamp returned |
| `Migration.Migrate` | migrate.py:210-252 | the step-by-step method produces exactly the outcome, timestamp and trace of `MigrationOf` |
| `Migration.MigrationPushesPrepared` | migrate.py:234-249 | every push of one migration goes to that repository's origin from a directory just deleted, cloned, filtered and rewritten, with the repository unarchived before and archived after |
| `Migration.MigrateAll` | migrate.py:254-258 | the main loop produces exactly the trace and crash flag of `RunOf`, threading each returned timestamp into the next call |
| `Migration.RunOf` | migrate.py:254-258 | the main loop as a function, each migration given the timestamp the previous one returned, an abort ending the run; its properties are `Migration.RunCreatesSpaced`, `Migration.RunStopsAtBadUrl`, `Migration.RunCompletes` and `Migration.RunPushesPrepared` |
| `Migration.RunCreatesSpaced` | migrate.py:254-258 | over a whole run, every create call is at least 2 s after the previous one and after the start |
| `Migration.RunStopsAtBadUrl` | migrate.py:254-258 | the first clone URL without '@' ends the run; the run's trace is that of the repositories before it |
| `Migration.RunCompletes` | migrate.py:254-258 | a run over URLs that all hold an '@' does not crash |
| `Migration.RunPushesPrepared` | migrate.py:254-258 | every push of a whole run is of a freshly prepared working directory |

## Left out

- HTTP requests and JSON decoding are not modelled. Their results are inputs: the status and `size` of the emptiness query, the status of the create POST, and the status and decoded body of each catalog page.
- The `git clone`, `git filter-repo`, `git filter-branch`, `git push` and `rm -rf` subprocesses appear only as trace steps. What they do to repositories is not modelled, and their exit codes are not read by the source.
- The responses of the unarchive and archive PATCH calls are only printed by the source, so they are trace steps with no input.
- Environment loading (`load_dotenv`, `os.getenv`) becomes the `Config` and `RemapConfig` parameters, always strings. Unset variables are not modelled: the source writes them as "None" into its f-strings (URLs, the env-filter script), and an unset `BITBUCKET_PASS` makes the splice's `join` raise TypeError on the first repository.
- The `tqdm` progress bar and every `print` are left out.
- `os.path.abspath` is left out. A working directory is `tmp_data/` followed by the GitHub name.
- The clock and `time.sleep` are left out. Time is integer milliseconds, not float seconds. The clock reading before a create call and the duration of the POST are inputs.
- `Destination.CreateGithubRepo`: the clock is assumed never to run backward during a create call (the POST duration is a `nat`), and `time.sleep` is assumed to last exactly the time asked for. `Migration.MigrationCreateTime`'s upper bound and the one in `Migration.RunCreatesSpaced` rest on the first assumption. The 2 s spacing is measured on that clock.
- `Ascii.Lower`, `Ascii.IsDigits`: `str.lower` and `str.isdigit` are modelled on ASCII only. Unicode letters and digits are outside the model.
- `lfs` does nothing in the source. It is a trace step with no effect.
- The shell quoting of the env-filter script is left out, and so is the `echo` and command substitution that strips a name's trailing newlines. Only the comparison rule is modelled.
- `Catalog.GetBitbucketRepos`: a cursor chain that never ends is not modelled. The replies are finite, and a request beyond the last reply counts as a failed page, so the walk always stops.
- `Catalog.GetBitbucketRepos`: a 200 reply whose JSON body is an empty object is falsy in Python and would be treated like a failure. Pages here are always records, so this case is not modelled.
- The GET of the emptiness query is an input of `migrate`, not a step of its trace.

