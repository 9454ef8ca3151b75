/**
 * Destination naming: `create_github_name` turns a Bitbucket repository name into
 * the GitHub one, and `get_github_origin` builds the push URL for it.
 */
module Naming {
  import opened Wrappers
  import Ascii
  import Text

  /** Marks a GitHub repository as migrated from Bitbucket. */
  const Prefix: string := "bb_"

  /** Lower-case, then drop every space (only ' ': tabs and other blanks stay). */
  function Normalize(s: string): (r: string)
    ensures ' ' !in r
    ensures forall i :: 0 <= i < |r| ==> !Ascii.IsUpper(r[i])
  {
    var lowered := Ascii.Lower(s);
    var r := Text.Remove(lowered, ' ');
    assert forall i :: 0 <= i < |r| ==> !Ascii.IsUpper(r[i]) by {
      forall i | 0 <= i < |r| ensures !Ascii.IsUpper(r[i]) {
        assert r[i] in lowered;
      }
    }
    r
  }

  lemma NormalizeConcat(a: string, b: string)
    ensures Normalize(a + b) == Normalize(a) + Normalize(b)
  {
    Ascii.LowerConcat(a, b);
    Text.RemoveConcat(Ascii.Lower(a), Ascii.Lower(b), ' ');
  }

  /** When the first piece is a number (a job number), it moves to the end. */
  function MoveLeadingNumber(parts: seq<string>): seq<string>
    requires |parts| >= 1
  {
    if Ascii.IsDigits(parts[0]) then parts[1..] + [parts[0]] else parts
  }

  /** `create_github_name`. */
  function CreateGithubName(bitbucketName: string): string
  {
    var parts := Text.Split(bitbucketName, '_');
    Prefix + Normalize(Text.Join(MoveLeadingNumber(parts), '_'))
  }

  /** A translated name holds no space and no upper-case letter. */
  lemma NameCharacters(bitbucketName: string)
    ensures var gh := CreateGithubName(bitbucketName);
            ' ' !in gh && forall i :: 0 <= i < |gh| ==> !Ascii.IsUpper(gh[i])
  {
    var n := Normalize(Text.Join(MoveLeadingNumber(Text.Split(bitbucketName, '_')), '_'));
    var gh := CreateGithubName(bitbucketName);
    assert gh == Prefix + n;
    assert Prefix == ['b', 'b', '_'];
    forall i | 0 <= i < |gh|
      ensures gh[i] != ' ' && !Ascii.IsUpper(gh[i])
    {
      if i >= |Prefix| {
        assert gh[i] == n[i - |Prefix|];
      }
    }
  }

  /** Every translated name starts with the prefix. */
  lemma NamePrefix(bitbucketName: string)
    ensures Text.StartsWith(CreateGithubName(bitbucketName), Prefix)
  {
  }

  /**
   * Without a leading number the pieces are rejoined unchanged, so the result is
   * the prefix followed by the whole name lower-cased and without spaces.
   */
  lemma NameWithoutLeadingNumber(bitbucketName: string)
    requires !Ascii.IsDigits(Text.Split(bitbucketName, '_')[0])
    ensures CreateGithubName(bitbucketName) == Prefix + Normalize(bitbucketName)
  {
    Text.JoinSplit(bitbucketName, '_');
  }

  /** A leading number followed by `_` moves, with its separator, to the end. */
  lemma NameWithLeadingNumber(number: string, rest: string)
    requires Ascii.IsDigits(number)
    ensures CreateGithubName(number + "_" + rest) == Prefix + Normalize(rest + "_" + number)
  {
    var name := number + "_" + rest;
    Ascii.DigitsExclude(number, '_');
    Text.SplitAtFirst(number, rest, '_');
    var tail := Text.Split(rest, '_');
    assert Text.Split(name, '_') == [number] + tail;
    assert ([number] + tail)[1..] == tail;
    Text.JoinSnoc(tail, number, '_');
    Text.JoinSplit(rest, '_');
  }

  /** A name that is only a number keeps it as the only piece. */
  lemma NameIsNumber(bitbucketName: string)
    requires Ascii.IsDigits(bitbucketName)
    ensures CreateGithubName(bitbucketName) == Prefix + bitbucketName
  {
    Ascii.DigitsExclude(bitbucketName, '_');
    Text.SplitWhole(bitbucketName, '_');
    assert [bitbucketName][1..] + [bitbucketName] == [bitbucketName];
    Ascii.LowerDigits(bitbucketName);
    Ascii.DigitsExclude(bitbucketName, ' ');
    RemoveAbsent(bitbucketName, ' ');
  }

  lemma {:induction false} RemoveAbsent(s: string, c: char)
    requires c !in s
    ensures Text.Remove(s, c) == s
  {
    if s != [] {
      RemoveAbsent(s[1..], c);
    }
  }

  /** Text that is already lower-case and free of spaces is left as it is. */
  lemma NormalizeUnchanged(s: string)
    requires ' ' !in s && forall i :: 0 <= i < |s| ==> !Ascii.IsUpper(s[i])
    ensures Normalize(s) == s
  {
    Ascii.LowerUnchanged(s);
    RemoveAbsent(s, ' ');
  }

  /** A job number in front moves to the end: "123_build_tool" becomes "bb_build_tool_123". */
  lemma JobNumberMovesToEnd()
    ensures CreateGithubName("123_build_tool") == "bb_build_tool_123"
  {
    hide CreateGithubName, Normalize, Text.Split, Text.Join, Text.Remove, Ascii.Lower;
    var number, rest := "123", "build_tool";
    assert Ascii.IsDigits(number);
    assert number + "_" + rest == "123_build_tool";
    NameWithLeadingNumber(number, rest);
    var moved := rest + "_" + number;
    assert moved == "build_tool_123";
    NormalizeUnchanged(moved);
  }

  /**
   * Character content: after the prefix, the result holds exactly the characters
   * of the lower-cased name other than spaces, each as often as there.
   */
  lemma NameContent(bitbucketName: string)
    ensures var gh := CreateGithubName(bitbucketName);
            multiset(gh[|Prefix|..]) == multiset(Ascii.Lower(bitbucketName))[' ' := 0]
  {
    var parts := Text.Split(bitbucketName, '_');
    if !Ascii.IsDigits(parts[0]) {
      NameWithoutLeadingNumber(bitbucketName);
    } else if |parts| == 1 {
      Text.JoinSplit(bitbucketName, '_');
      NameIsNumber(bitbucketName);
      Ascii.LowerDigits(bitbucketName);
    } else {
      var number := parts[0];
      var rest := Text.Join(parts[1..], '_');
      Text.JoinSplit(bitbucketName, '_');
      assert bitbucketName == number + "_" + rest;
      NameWithLeadingNumber(number, rest);
      RotatedContent(number, rest);
    }
  }

  lemma RotatedContent(a: string, b: string)
    ensures multiset(Ascii.Lower(b + "_" + a)) == multiset(Ascii.Lower(a + "_" + b))
  {
    Ascii.LowerConcat(b + "_", a);
    Ascii.LowerConcat(b, "_");
    Ascii.LowerConcat(a + "_", b);
    Ascii.LowerConcat(a, "_");
  }

  const GithubHost: string := "https://github.com/"
  const GitSuffix: string := ".git"

  /** Recovers the repository name from a push URL of `user`, if it is one. */
  function RepoOfOrigin(user: string, origin: string): Option<string>
  {
    var head := GithubHost + user + "/";
    if |origin| >= |head| + |GitSuffix|
       && origin[..|head|] == head
       && origin[|origin| - |GitSuffix|..] == GitSuffix
    then Some(origin[|head|..|origin| - |GitSuffix|])
    else None
  }

  /** `get_github_origin`: the HTTPS URL of `repoName` under `user`. */
  function GithubOrigin(user: string, repoName: string): (origin: string)
    ensures RepoOfOrigin(user, origin) == Some(repoName)
  {
    GithubHost + user + "/" + repoName + GitSuffix
  }

  /** Distinct repository names have distinct push URLs. */
  lemma OriginInjective(user: string, a: string, b: string)
    requires GithubOrigin(user, a) == GithubOrigin(user, b)
    ensures a == b
  {
    assert RepoOfOrigin(user, GithubOrigin(user, a)) == Some(a);
  }

  /**
   * Inside the translated text a space is dropped, not turned into a separator:
   * "Payments API" becomes "bb_paymentsapi".
   */
  lemma SpaceDropped(a: string, b: string)
    ensures Normalize(a + " " + b) == Normalize(a) + Normalize(b)
  {
    NormalizeConcat(a + " ", b);
    NormalizeConcat(a, " ");
    NormalizeSpace();
  }

  lemma NormalizeSpace()
    ensures Normalize(" ") == []
  {
    var space := " ";
    assert Ascii.Lower(space) == space;
  }
}
