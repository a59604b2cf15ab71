/**
 * The repository endpoint (`GET /api/github`): the classification of the
 * upstream answer into a reply, and the filter / project / sort / truncate
 * pipeline applied to a successful repository list.
 */
module GithubRoute {
  import opened Wrappers

  const DefaultAccount := "FelpsDeveloper3001"
  /** How many repositories the reply keeps. */
  const MaxRepos := 6

  /** One entry of the upstream repository list (`updated` abstracts the ISO 8601 `updated_at`). */
  datatype Repo = Repo(
    id: int, name: string, description: Option<string>, htmlUrl: string,
    language: Option<string>, stars: int, forks: int, updated: int,
    private: bool, fork: bool, topics: Option<seq<string>>)

  /** The record the reply carries for one repository. */
  datatype Summary = Summary(
    id: int, name: string, description: Option<string>, htmlUrl: string,
    language: Option<string>, stars: int, forks: int, updated: int,
    private: bool, fork: bool, topics: seq<string>)

  /**
   * What the outbound request produced: a response with its status, its
   * rate-limit-reset header and its body (None when the body is not a
   * repository list), or a failure before any response.
   */
  datatype Upstream =
    | Fetched(status: int, resetHeader: Option<string>, body: Option<seq<Repo>>)
    | Failed

  /**
   * The `resetTime` field of a rate-limit reply: absent (other replies), null,
   * or the display time formed from the given reset header.
   */
  datatype ResetField = NoResetField | NullReset | ResetAt(header: string)

  datatype Body =
    | RepoList(items: seq<Summary>)
    | ErrorBody(error: string, resetTime: ResetField, repos: seq<Summary>)

  datatype Reply = Reply(status: int, body: Body)

  /** The configured account name; an unset or empty setting falls back to the default. */
  function Account(setting: Option<string>): (r: string)
    ensures r != ""
    ensures setting.Some? && setting.value != "" ==> r == setting.value
    ensures !(setting.Some? && setting.value != "") ==> r == DefaultAccount
  {
    if setting.Some? && setting.value != "" then setting.value else DefaultAccount
  }

  function NotFoundMessage(account: string): string {
    "Usuário '" + account + "' não encontrado no GitHub"
  }

  const RateLimitMessage := "Rate limit do GitHub excedido. Tente novamente mais tarde."
  const InternalMessage := "Erro interno do servidor ao buscar repositórios"

  /** `response.ok`: a status in the 2xx range. */
  predicate IsOk(status: int) {
    200 <= status <= 299
  }

  // ---------------------------------------------------------------------------
  // The pipeline

  /** The entries not flagged private, in their original order. */
  function Public(rs: seq<Repo>): (r: seq<Repo>)
    ensures forall x :: multiset(r)[x] == if x.private then 0 else multiset(rs)[x]
  {
    if rs == [] then []
    else
      assert rs == [rs[0]] + rs[1..];
      (if rs[0].private then [] else [rs[0]]) + Public(rs[1..])
  }

  /** The record kept for one entry: every field copied, missing topics read as none. */
  function Project(r: Repo): Summary {
    Summary(r.id, r.name, r.description, r.htmlUrl, r.language, r.stars, r.forks,
            r.updated, r.private, r.fork, if r.topics.Some? then r.topics.value else [])
  }

  function ProjectAll(rs: seq<Repo>): (r: seq<Summary>)
    ensures |r| == |rs| && forall i :: 0 <= i < |rs| ==> r[i] == Project(rs[i])
  {
    if rs == [] then [] else [Project(rs[0])] + ProjectAll(rs[1..])
  }

  /**
   * The sort comparator: negative when a goes first, positive when b goes
   * first. More stars first; on equal stars, the later update first.
   */
  function Compare(a: Summary, b: Summary): int {
    if b.stars != a.stars then b.stars - a.stars else b.updated - a.updated
  }

  /** a may stand before b in the sorted list. */
  predicate Precedes(a: Summary, b: Summary) {
    Compare(a, b) <= 0
  }

  /** The comparator's order, spelled out in the two keys. */
  lemma PrecedesMeans(a: Summary, b: Summary)
    ensures Precedes(a, b) <==> a.stars > b.stars || (a.stars == b.stars && a.updated >= b.updated)
  {
  }

  /** The comparator is a total preorder, so a sorted order exists. */
  lemma PrecedesIsTotalPreorder(a: Summary, b: Summary, c: Summary)
    ensures Precedes(a, b) || Precedes(b, a)
    ensures Precedes(a, b) && Precedes(b, c) ==> Precedes(a, c)
  {
  }

  ghost predicate Sorted(s: seq<Summary>) {
    forall i, j :: 0 <= i < j < |s| ==> Precedes(s[i], s[j])
  }

  /** A list stays sorted when an element that may precede all of it is put in front. */
  lemma ConsSorted(y: Summary, t: seq<Summary>)
    requires Sorted(t)
    requires forall e :: e in t ==> Precedes(y, e)
    ensures Sorted([y] + t)
  {
    var s := [y] + t;
    forall i, j | 0 <= i < j < |s| ensures Precedes(s[i], s[j]) {
      assert s[j] == t[j - 1];
      if i > 0 { assert s[i] == t[i - 1]; }
    }
  }

  /**
   * x placed into a sorted list before the first element it may precede.
   * On a tie x goes in front; since Sort inserts each entry into the sorted
   * rest of the list, tied entries keep their input order, as with the
   * stable `Array.prototype.sort`.
   */
  function Insert(x: Summary, s: seq<Summary>): (r: seq<Summary>)
    requires Sorted(s)
    ensures Sorted(r) && multiset(r) == multiset(s) + multiset{x}
  {
    if s == [] then [x]
    else if Precedes(x, s[0]) then
      assert forall e :: e in s ==> Precedes(x, e) by {
        forall e | e in s ensures Precedes(x, e) {
          var k :| 0 <= k < |s| && s[k] == e;
          if k > 0 { PrecedesIsTotalPreorder(x, s[0], e); }
        }
      }
      ConsSorted(x, s);
      [x] + s
    else
      var t := Insert(x, s[1..]);
      assert s == [s[0]] + s[1..];
      assert forall e :: e in t ==> Precedes(s[0], e) by {
        forall e | e in t ensures Precedes(s[0], e) {
          assert e in multiset(t);
          if e == x {
            PrecedesIsTotalPreorder(x, s[0], x);
          } else {
            assert e in multiset(s[1..]);
            var k :| 0 <= k < |s[1..]| && s[1..][k] == e;
            assert s[k + 1] == e;
          }
        }
      }
      ConsSorted(s[0], t);
      [s[0]] + t
  }

  /** `Array.prototype.sort` with the comparator: a sorted permutation. */
  function Sort(s: seq<Summary>): (r: seq<Summary>)
    ensures Sorted(r) && multiset(r) == multiset(s)
  {
    if s == [] then []
    else
      assert s == [s[0]] + s[1..];
      Insert(s[0], Sort(s[1..]))
  }

  function Min(a: int, b: int): int {
    if a <= b then a else b
  }

  /** `.slice(0, n)`: the first n elements, or all of them when there are fewer. */
  function Take(s: seq<Summary>, n: nat): (r: seq<Summary>)
    ensures |r| == Min(n, |s|)
    ensures forall i :: 0 <= i < |r| ==> r[i] == s[i]
  {
    s[..Min(n, |s|)]
  }

  /** The public entries, projected, in sorted order. */
  function Ranked(rs: seq<Repo>): seq<Summary> {
    Sort(ProjectAll(Public(rs)))
  }

  /** Every ranked record is the projection of a public input entry. */
  lemma RankedFromInput(rs: seq<Repo>)
    ensures |Ranked(rs)| == |Public(rs)|
    ensures forall o :: o in Ranked(rs) ==> exists x :: x in rs && !x.private && o == Project(x)
  {
    var pub := Public(rs);
    var projected := ProjectAll(pub);
    assert |multiset(Ranked(rs))| == |multiset(projected)|;
    forall o | o in Ranked(rs) ensures exists x :: x in rs && !x.private && o == Project(x) {
      assert o in multiset(projected);
      var i :| 0 <= i < |projected| && projected[i] == o;
      assert pub[i] in multiset(pub);
      assert pub[i] in rs && !pub[i].private && o == Project(pub[i]);
    }
  }

  /** The first n entries of a sorted list, read in the comparator's two keys. */
  lemma SortedPrefix(s: seq<Summary>, n: nat)
    requires Sorted(s)
    ensures forall o :: o in Take(s, n) ==> o in s
    ensures forall i, j :: 0 <= i < j < |Take(s, n)| ==> Take(s, n)[i].stars >= Take(s, n)[j].stars
    ensures forall i ::
      (0 <= i < |Take(s, n)| - 1 && Take(s, n)[i].stars == Take(s, n)[i + 1].stars)
      ==> Take(s, n)[i].updated >= Take(s, n)[i + 1].updated
  {
    var r := Take(s, n);
    forall i, j | 0 <= i < j < |r| ensures r[i].stars >= r[j].stars {
      PrecedesMeans(r[i], r[j]);
    }
    forall i | 0 <= i < |r| - 1 && r[i].stars == r[i + 1].stars ensures r[i].updated >= r[i + 1].updated {
      PrecedesMeans(r[i], r[i + 1]);
    }
  }

  /** The list a successful reply carries. */
  function Process(rs: seq<Repo>): (r: seq<Summary>)
    ensures |r| == Min(MaxRepos, |Public(rs)|)
    ensures forall o :: o in r ==> !o.private
    ensures forall o :: o in r ==> exists x :: x in rs && !x.private && o == Project(x)
    ensures forall i, j :: 0 <= i < j < |r| ==> r[i].stars >= r[j].stars
    ensures forall i :: 0 <= i < |r| - 1 && r[i].stars == r[i + 1].stars ==> r[i].updated >= r[i + 1].updated
  {
    RankedFromInput(rs);
    SortedPrefix(Ranked(rs), MaxRepos);
    Take(Ranked(rs), MaxRepos)
  }

  /** Every element a sorted list keeps in its first n precedes every element left after them. */
  lemma SortedSplit(s: seq<Summary>, n: nat)
    requires Sorted(s) && n <= |s|
    ensures multiset(s[..n]) <= multiset(s)
    ensures forall a, b :: (a in s[..n] && b in multiset(s) - multiset(s[..n])) ==> Precedes(a, b)
  {
    assert s == s[..n] + s[n..];
    assert multiset(s) == multiset(s[..n]) + multiset(s[n..]);
    forall a, b | a in s[..n] && b in multiset(s) - multiset(s[..n]) ensures Precedes(a, b) {
      assert b in multiset(s[n..]);
      var i :| 0 <= i < n && s[i] == a;
      var j :| 0 <= j < |s[n..]| && s[n..][j] == b;
      assert s[n + j] == b;
    }
  }

  /**
   * The reply keeps the top of the ranking: it holds only public entries,
   * and any public entry it leaves out is ranked no higher than every entry
   * it keeps.
   */
  lemma ProcessKeepsTop(rs: seq<Repo>)
    ensures multiset(Process(rs)) <= multiset(ProjectAll(Public(rs)))
    ensures forall a, b ::
      (a in Process(rs) && b in multiset(ProjectAll(Public(rs))) - multiset(Process(rs))) ==> Precedes(a, b)
  {
    var ranked := Ranked(rs);
    SortedSplit(ranked, |Process(rs)|);
  }

  // ---------------------------------------------------------------------------
  // The handler

  /**
   * The whole handler, given the account setting and what the outbound
   * request produced.
   */
  function Get(setting: Option<string>, up: Upstream): (r: Reply)
    ensures r.status in {200, 404, 429, 500}
    ensures r.status == 200 <==> up.Fetched? && IsOk(up.status) && up.body.Some?
    ensures r.status == 200 ==> r.body == RepoList(Process(up.body.value))
    ensures r.status == 404 <==> up.Fetched? && up.status == 404
    ensures r.status == 429 <==> up.Fetched? && up.status == 403
    ensures r.status != 200 ==> r.body.ErrorBody? && r.body.repos == []
    ensures r.status == 429 ==>
      (r.body.resetTime == NullReset <==> up.resetHeader.None? || up.resetHeader.value == "")
    ensures r.status == 429 && r.body.resetTime != NullReset ==> r.body.resetTime == ResetAt(up.resetHeader.value)
    ensures r.status == 404 ==> r.body.error == NotFoundMessage(Account(setting)) && r.body.resetTime == NoResetField
    ensures r.status == 429 ==> r.body.error == RateLimitMessage
    ensures r.status == 500 ==> r.body.error == InternalMessage && r.body.resetTime == NoResetField
  {
    match up
    case Failed => Reply(500, ErrorBody(InternalMessage, NoResetField, []))
    case Fetched(status, resetHeader, body) =>
      if !IsOk(status) then
        if status == 404 then
          Reply(404, ErrorBody(NotFoundMessage(Account(setting)), NoResetField, []))
        else if status == 403 then
          var resetTime := if resetHeader.Some? && resetHeader.value != "" then ResetAt(resetHeader.value) else NullReset;
          Reply(429, ErrorBody(RateLimitMessage, resetTime, []))
        else
          Reply(500, ErrorBody(InternalMessage, NoResetField, []))
      else if body.None? then
        Reply(500, ErrorBody(InternalMessage, NoResetField, []))
      else
        Reply(200, RepoList(Process(body.value)))
  }
}
