/**
 The part of git the lifecycle scripts ask about: commits with parents and trees, ancestry, merge
 bases, and the paths that differ between two commits.
 */
module CommitGraph {
  import opened Wrappers

  /** A piece of a file: a character, or a byte sequence that is not valid UTF-8. */
  datatype Unit = Char(c: char) | Bad(code: nat)

  type Bytes = seq<Unit>
  type Tree = map<string, Bytes>

  /** Parents are positions of earlier commits, so the graph is acyclic by construction. */
  datatype Commit = Commit(id: string, parents: set<nat>, tree: Tree)
  datatype Repo = Repo(commits: seq<Commit>, head: nat)

  predicate ValidRepo(r: Repo) {
    r.head < |r.commits|
    && (forall i :: 0 <= i < |r.commits| ==> r.commits[i].id != "" && r.commits[i].id != "HEAD")
    && forall i, j :: 0 <= i < j < |r.commits| ==> r.commits[i].id != r.commits[j].id
  }

  /** Reflexive-transitive reachability through parents. */
  predicate Ancestor(cs: seq<Commit>, a: nat, c: nat)
    decreases c
  {
    c < |cs| && (a == c || exists p :: p in cs[c].parents && p < c && Ancestor(cs, a, p))
  }

  lemma {:induction false} AncestorIsEarlier(cs: seq<Commit>, a: nat, c: nat)
    requires Ancestor(cs, a, c)
    ensures a <= c && a < |cs| && Ancestor(cs, a, a)
    decreases c
  {
    if a != c {
      var p :| p in cs[c].parents && p < c && Ancestor(cs, a, p);
      AncestorIsEarlier(cs, a, p);
    }
  }

  lemma {:induction false} AncestorTransitive(cs: seq<Commit>, a: nat, b: nat, c: nat)
    requires Ancestor(cs, a, b) && Ancestor(cs, b, c)
    ensures Ancestor(cs, a, c)
    decreases c
  {
    if b != c {
      var p :| p in cs[c].parents && p < c && Ancestor(cs, b, p);
      AncestorTransitive(cs, a, b, p);
    }
  }

  /** Ancestry among existing commits never changes when commits are added. */
  lemma {:induction false} AncestorStable(cs: seq<Commit>, cs': seq<Commit>, a: nat, c: nat)
    requires cs <= cs' && c < |cs|
    ensures Ancestor(cs, a, c) <==> Ancestor(cs', a, c)
    decreases c
  {
    assert cs'[c] == cs[c];
    forall p | p in cs[c].parents && p < c ensures Ancestor(cs, a, p) <==> Ancestor(cs', a, p) {
      AncestorStable(cs, cs', a, p);
    }
  }

  // ---------------------------------------------------------------------------------------------
  // Names of commits
  // ---------------------------------------------------------------------------------------------

  function FindId(cs: seq<Commit>, id: string): (r: Option<nat>)
    ensures r.Some? ==> r.value < |cs| && cs[r.value].id == id
    ensures r.None? ==> forall i :: 0 <= i < |cs| ==> cs[i].id != id
  {
    if cs == [] then None
    else
      var front := cs[..|cs| - 1];
      var found := FindId(front, id);
      if found.Some? then found
      else if cs[|cs| - 1].id == id then Some(|cs| - 1) else None
  }

  /** A full commit id or `HEAD`. */
  function Resolve(r: Repo, rev: string): Option<nat> {
    if rev == "HEAD" then Some(r.head) else FindId(r.commits, rev)
  }

  predicate IsCommit(r: Repo, rev: string) { Resolve(r, rev).Some? }

  /** `merge-base --is-ancestor`; false for an empty or unknown name. */
  predicate IsAncestor(r: Repo, earlier: string, later: string) {
    earlier != "" && later != "" && Resolve(r, earlier).Some? && Resolve(r, later).Some?
    && Ancestor(r.commits, Resolve(r, earlier).value, Resolve(r, later).value)
  }

  /** `r'` is `r` with commits added and HEAD possibly moved forward. */
  predicate Grows(r: Repo, r': Repo) {
    r.commits <= r'.commits && Ancestor(r'.commits, r.head, r'.head)
  }

  lemma ResolveStable(r: Repo, r': Repo, rev: string)
    requires ValidRepo(r) && ValidRepo(r') && Grows(r, r') && rev != "HEAD" && Resolve(r, rev).Some?
    ensures Resolve(r', rev) == Resolve(r, rev)
  {
    var i := Resolve(r, rev).value;
    assert r'.commits[i] == r.commits[i];
    var j := FindId(r'.commits, rev);
  }

  /** Facts about fixed commits survive; an ancestor of HEAD stays one. */
  lemma IsAncestorStable(r: Repo, r': Repo, a: string, b: string)
    requires ValidRepo(r) && ValidRepo(r') && Grows(r, r') && a != "HEAD"
    requires IsAncestor(r, a, b)
    ensures IsAncestor(r', a, b)
  {
    ResolveStable(r, r', a);
    var i, j := Resolve(r, a).value, Resolve(r, b).value;
    AncestorStable(r.commits, r'.commits, i, j);
    if b == "HEAD" {
      AncestorTransitive(r'.commits, i, j, r'.head);
    } else {
      ResolveStable(r, r', b);
    }
  }

  // ---------------------------------------------------------------------------------------------
  // Differences and merge bases
  // ---------------------------------------------------------------------------------------------

  function Blob(t: Tree, p: string): Option<Bytes> { if p in t then Some(t[p]) else None }

  /** `git diff --name-only`: every path whose content differs. */
  function Diff(a: Tree, b: Tree): (paths: set<string>)
    ensures forall p :: p in paths <==> Blob(a, p) != Blob(b, p)
  {
    set p | p in a.Keys + b.Keys && Blob(a, p) != Blob(b, p)
  }

  /** A common ancestor that is not an ancestor of another one. */
  ghost predicate MergeBase(cs: seq<Commit>, a: nat, b: nat, m: nat) {
    Ancestor(cs, m, a) && Ancestor(cs, m, b)
    && forall x: nat :: Ancestor(cs, x, a) && Ancestor(cs, x, b) && Ancestor(cs, m, x) ==> x == m
  }

  /** The merge base of a commit and its descendant is the commit itself. */
  lemma MergeBaseOfAncestor(cs: seq<Commit>, a: nat, b: nat, m: nat)
    requires Ancestor(cs, a, b)
    ensures MergeBase(cs, a, b, m) <==> m == a
  {
    AncestorIsEarlier(cs, a, b);
    forall x: nat | Ancestor(cs, x, a) && Ancestor(cs, a, x) ensures x == a {
      AncestorIsEarlier(cs, x, a);
      AncestorIsEarlier(cs, a, x);
    }
  }
}
