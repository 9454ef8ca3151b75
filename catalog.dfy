/**
 * `get_bitbucket_repos_page` and `get_bitbucket_repos`: the Bitbucket catalog is
 * read page by page, following each page's `next` cursor, and every clone link
 * named "https" becomes one (repository name, clone URL) record.
 *
 * The HTTP layer is an input: `replies[k]` is the reply to the k-th GET the
 * lister issues (k = 0 for the catalog URL, k + 1 for the `next` cursor of the
 * k-th page). A request beyond the end of `replies` is answered as a failure.
 */
module Catalog {
  import opened Wrappers

  datatype CloneLink = CloneLink(name: string, href: string)
  datatype RepoDescriptor = RepoDescriptor(name: string, cloneLinks: seq<CloneLink>)
  datatype Page = Page(values: seq<RepoDescriptor>, next: Option<string>)
  datatype HttpReply = HttpReply(status: int, body: Page)

  /** What the lister hands to the migration: one source repository and its clone URL. */
  datatype RepoRecord = RepoRecord(name: string, cloneUrl: string)

  const ApiRoot: string := "https://api.bitbucket.org/2.0/repositories/"

  function CatalogUrl(org: string): string { ApiRoot + org }

  /** `get_bitbucket_repos_page`: the decoded page on status 200, otherwise nothing. */
  function FetchPage(replies: seq<HttpReply>, k: nat): (page: Option<Page>)
    ensures page.Some? <==> k < |replies| && replies[k].status == 200
    ensures page.Some? ==> page.value == replies[k].body
  {
    if k < |replies| && replies[k].status == 200 then Some(replies[k].body) else None
  }

  /**
   * The repositories the lister collects from request `k` on: the page's values,
   * then, while it has a `next` cursor, those of the following request; a failed
   * request contributes nothing and ends the walk.
   */
  function Listing(replies: seq<HttpReply>, k: nat): seq<RepoDescriptor>
    decreases |replies| - k
  {
    match FetchPage(replies, k)
    case None => []
    case Some(page) => page.values + (if page.next.Some? then Listing(replies, k + 1) else [])
  }

  /** The values of a run of pages, in order. */
  function Flatten(replies: seq<HttpReply>): seq<RepoDescriptor>
  {
    if replies == [] then [] else replies[0].body.values + Flatten(replies[1..])
  }

  /** A run of successful pages that each point to a next one. */
  predicate Chained(replies: seq<HttpReply>, k: nat)
  {
    k <= |replies| && forall i :: 0 <= i < k ==> replies[i].status == 200 && replies[i].body.next.Some?
  }

  /** The clone link the lister keeps: the one named "https". */
  predicate IsHttps(link: CloneLink)
  {
    link.name == "https"
  }

  /** Records of one repository's https clone links, in link order. */
  function LinkRecords(repoName: string, links: seq<CloneLink>): seq<RepoRecord>
  {
    if links == [] then []
    else (if IsHttps(links[0]) then [RepoRecord(repoName, links[0].href)] else [])
         + LinkRecords(repoName, links[1..])
  }

  /** Records of all repositories, in repository order, then link order. */
  function HttpsRecords(repos: seq<RepoDescriptor>): seq<RepoRecord>
  {
    if repos == [] then []
    else LinkRecords(repos[0].name, repos[0].cloneLinks) + HttpsRecords(repos[1..])
  }

  lemma {:induction false} LinkRecordsConcat(repoName: string, a: seq<CloneLink>, b: seq<CloneLink>)
    ensures LinkRecords(repoName, a + b) == LinkRecords(repoName, a) + LinkRecords(repoName, b)
  {
    if a == [] {
      assert a + b == b;
    } else {
      var head := if IsHttps(a[0]) then [RepoRecord(repoName, a[0].href)] else [];
      assert (a + b)[0] == a[0] && (a + b)[1..] == a[1..] + b;
      LinkRecordsConcat(repoName, a[1..], b);
      assert LinkRecords(repoName, a + b) == head + (LinkRecords(repoName, a[1..]) + LinkRecords(repoName, b));
    }
  }

  /** The records of concatenated catalogs are the concatenated records. */
  lemma {:induction false} HttpsRecordsConcat(a: seq<RepoDescriptor>, b: seq<RepoDescriptor>)
    ensures HttpsRecords(a + b) == HttpsRecords(a) + HttpsRecords(b)
  {
    if a == [] {
      assert a + b == b;
    } else {
      assert (a + b)[0] == a[0] && (a + b)[1..] == a[1..] + b;
      HttpsRecordsConcat(a[1..], b);
    }
  }

  lemma {:induction false} LinkRecordsMembership(repoName: string, links: seq<CloneLink>, rec: RepoRecord)
    ensures rec in LinkRecords(repoName, links) <==>
            exists j :: 0 <= j < |links| && IsHttps(links[j]) && rec == RepoRecord(repoName, links[j].href)
  {
    if links != [] {
      LinkRecordsMembership(repoName, links[1..], rec);
      if rec in LinkRecords(repoName, links[1..]) {
        var j :| 0 <= j < |links[1..]| && IsHttps(links[1..][j]) && rec == RepoRecord(repoName, links[1..][j].href);
        assert links[j + 1] == links[1..][j];
      }
      if exists j :: 0 <= j < |links| && IsHttps(links[j]) && rec == RepoRecord(repoName, links[j].href) {
        var j :| 0 <= j < |links| && IsHttps(links[j]) && rec == RepoRecord(repoName, links[j].href);
        if j > 0 {
          assert links[1..][j - 1] == links[j];
        }
      }
    }
  }

  /**
   * A record is listed exactly when some repository has a clone link named
   * "https" with that URL; a repository without one contributes nothing.
   */
  lemma {:induction false} HttpsRecordsMembership(repos: seq<RepoDescriptor>, rec: RepoRecord)
    ensures rec in HttpsRecords(repos) <==>
            exists i, j :: 0 <= i < |repos| && 0 <= j < |repos[i].cloneLinks|
                           && IsHttps(repos[i].cloneLinks[j])
                           && rec == RepoRecord(repos[i].name, repos[i].cloneLinks[j].href)
  {
    if repos != [] {
      HttpsRecordsMembership(repos[1..], rec);
      LinkRecordsMembership(repos[0].name, repos[0].cloneLinks, rec);
      if rec in HttpsRecords(repos[1..]) {
        var i, j :| 0 <= i < |repos[1..]| && 0 <= j < |repos[1..][i].cloneLinks|
                    && IsHttps(repos[1..][i].cloneLinks[j])
                    && rec == RepoRecord(repos[1..][i].name, repos[1..][i].cloneLinks[j].href);
        assert repos[i + 1] == repos[1..][i];
      }
      if exists i, j :: 0 <= i < |repos| && 0 <= j < |repos[i].cloneLinks|
                        && IsHttps(repos[i].cloneLinks[j])
                        && rec == RepoRecord(repos[i].name, repos[i].cloneLinks[j].href) {
        var i, j :| 0 <= i < |repos| && 0 <= j < |repos[i].cloneLinks|
                    && IsHttps(repos[i].cloneLinks[j])
                    && rec == RepoRecord(repos[i].name, repos[i].cloneLinks[j].href);
        if i > 0 {
          assert repos[1..][i - 1] == repos[i];
        }
      }
    }
  }

  /**
   * Along a chain of successful pages with cursors, the listing is their values
   * in page order followed by whatever the walk collects from request `k` on.
   */
  lemma {:induction false} ListingAlongChain(replies: seq<HttpReply>, k: nat)
    requires Chained(replies, k)
    ensures Listing(replies, 0) == Flatten(replies[..k]) + Listing(replies, k)
  {
    if k > 0 {
      var chain := replies[..k - 1];
      ListingAlongChain(replies, k - 1);
      ListingOfChainedPage(replies, k - 1);
      FlattenSnoc(chain, replies[k - 1]);
      assert replies[..k] == chain + [replies[k - 1]];
    }
  }

  lemma {:induction false} FlattenSnoc(replies: seq<HttpReply>, r: HttpReply)
    ensures Flatten(replies + [r]) == Flatten(replies) + r.body.values
  {
    if replies == [] {
      assert [] + [r] == [r];
    } else {
      assert (replies + [r])[1..] == replies[1..] + [r];
      FlattenSnoc(replies[1..], r);
    }
  }

  /**
   * The first failed page ends the listing and the pages before it are kept:
   * when page `k` fails after a chain of `k` good pages, the listing is exactly
   * the values of those `k` pages (none at all when the first page fails).
   */
  lemma PartialListing(replies: seq<HttpReply>, k: nat)
    requires Chained(replies, k)
    requires k < |replies| && replies[k].status != 200
    ensures Listing(replies, 0) == Flatten(replies[..k])
  {
    ListingAlongChain(replies, k);
  }

  /** A page without a `next` cursor is the last one read. */
  lemma LastPage(replies: seq<HttpReply>, k: nat)
    requires Chained(replies, k)
    requires k < |replies| && replies[k].status == 200 && replies[k].body.next.None?
    ensures Listing(replies, 0) == Flatten(replies[..k + 1])
  {
    hide *;
    var chain := replies[..k];
    ListingAlongChain(replies, k);
    ListingOfLastPage(replies, k);
    FlattenSnoc(chain, replies[k]);
    assert replies[..k + 1] == chain + [replies[k]];
  }

  lemma ListingOfChainedPage(replies: seq<HttpReply>, k: nat)
    requires k < |replies| && replies[k].status == 200 && replies[k].body.next.Some?
    ensures Listing(replies, k) == replies[k].body.values + Listing(replies, k + 1)
  {
  }

  lemma ListingOfLastPage(replies: seq<HttpReply>, k: nat)
    requires k < |replies| && replies[k].status == 200 && replies[k].body.next.None?
    ensures Listing(replies, k) == replies[k].body.values
  {
    assert replies[k].body.values + [] == replies[k].body.values;
  }

  /**
   * `get_bitbucket_repos`. Returns the records and the URLs it requested, in
   * order: the catalog URL, then each page's `next` cursor, until a request
   * fails or a page has no cursor.
   */
  method GetBitbucketRepos(org: string, replies: seq<HttpReply>)
    returns (repos: seq<RepoRecord>, requested: seq<string>)
    ensures repos == HttpsRecords(Listing(replies, 0))
    ensures |requested| >= 1 && requested[0] == CatalogUrl(org)
    ensures forall k :: 0 <= k < |requested| - 1 ==>
              FetchPage(replies, k).Some? && FetchPage(replies, k).value.next == Some(requested[k + 1])
    ensures FetchPage(replies, |requested| - 1).None? || FetchPage(replies, |requested| - 1).value.next.None?
  {
    hide HttpsRecords;
    requested := [CatalogUrl(org)];
    var values: seq<RepoDescriptor> := [];
    var response := FetchPage(replies, 0);
    var k := 0;
    if response.Some? {
      values := response.value.values;
      while response.value.next.Some?
        invariant response.Some? && response == FetchPage(replies, k)
        invariant |requested| == k + 1 && requested[0] == CatalogUrl(org)
        invariant forall i :: 0 <= i < k ==>
                    FetchPage(replies, i).Some? && FetchPage(replies, i).value.next == Some(requested[i + 1])
        invariant Listing(replies, 0)
                  == values + (if response.value.next.Some? then Listing(replies, k + 1) else [])
        decreases |replies| - k
      {
        requested := requested + [response.value.next.value];
        k := k + 1;
        response := FetchPage(replies, k);
        if response.Some? {
          values := values + response.value.values;
        } else {
          assert Listing(replies, k) == [];
          assert values + [] == values;
          break;
        }
      }
      assert response.Some? ==> values + [] == values;
    }
    assert values == Listing(replies, 0);
    assert response == FetchPage(replies, |requested| - 1);
    repos := CollectHttpsRecords(values);
  }

  /** The inner loop of `get_bitbucket_repos`: appends one record per https clone link of `repo`. */
  method AppendLinkRecords(repos: seq<RepoRecord>, repo: RepoDescriptor) returns (extended: seq<RepoRecord>)
    ensures extended == repos + LinkRecords(repo.name, repo.cloneLinks)
  {
    extended := repos;
    var j := 0;
    while j < |repo.cloneLinks|
      invariant 0 <= j <= |repo.cloneLinks|
      invariant extended == repos + LinkRecords(repo.name, repo.cloneLinks[..j])
    {
      var link := repo.cloneLinks[j];
      if IsHttps(link) {
        extended := extended + [RepoRecord(repo.name, link.href)];
      }
      assert repo.cloneLinks[..j + 1] == repo.cloneLinks[..j] + [link];
      LinkRecordsConcat(repo.name, repo.cloneLinks[..j], [link]);
      j := j + 1;
    }
    assert repo.cloneLinks[..j] == repo.cloneLinks;
  }

  /** The outer loop of `get_bitbucket_repos` over the collected repositories. */
  method CollectHttpsRecords(values: seq<RepoDescriptor>) returns (repos: seq<RepoRecord>)
    ensures repos == HttpsRecords(values)
  {
    repos := [];
    var i := 0;
    while i < |values|
      invariant 0 <= i <= |values|
      invariant repos == HttpsRecords(values[..i])
    {
      var repo := values[i];
      repos := AppendLinkRecords(repos, repo);
      assert values[..i + 1] == values[..i] + [repo];
      HttpsRecordsConcat(values[..i], [repo]);
      i := i + 1;
    }
    assert values[..i] == values;
  }
}
