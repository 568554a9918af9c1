/**
 * The path-set reducer of chadtree's filesystem operations: the ancestors of
 * a path, and the reduction of a set of paths to the members that no other
 * member contains. Callers hand the reduced set to recursive batch operations
 * (remove, copy) so that each subtree is visited once.
 *
 * Paths are strings, as in the source. Ancestors are computed through the
 * `PurePaths` model of `PurePath(...).parents` and rendered with `str()`, so
 * they are always in normal form: a member below a root written with a
 * trailing separator, such as "/tmp/a/", is never recognised as an ancestor,
 * not even of "/tmp/a/x.txt".
 */
module Ops {
  import opened PurePaths

  /** `ancestors(path)`: the rendered parents of `path`, nearest to farthest. */
  function Ancestors(path: string): (r: set<string>)
    ensures |Parse(path).parts| > 0 ==> Str(Parse(path).Lead(0)) in r
  {
    var p := Parse(path);
    set k | 0 <= k < |p.parts| :: Str(p.Lead(k))
  }

  /** `unify_ancestors(paths)`: the members of `paths` none of whose ancestors is in `paths`. */
  function UnifyAncestors(paths: set<string>): (r: set<string>)
    ensures r <= paths
    ensures forall p, q :: p in r && q in r ==> q !in Ancestors(p)
  {
    set p | p in paths && Ancestors(p) !! paths
  }

  /** `a` is a proper ancestor of `p`. */
  predicate IsAncestor(a: string, p: string) {
    a in Ancestors(p)
  }

  /** No member of `paths` is an ancestor of another. */
  predicate Antichain(paths: set<string>) {
    forall p, q :: p in paths && q in paths ==> !IsAncestor(q, p)
  }

  /** `p` lies in the subtree of a member of `roots`: it is one, or one is its ancestor. */
  predicate Covered(roots: set<string>, p: string) {
    p in roots || exists q :: q in roots && IsAncestor(q, p)
  }

  // ---------------------------------------------------------------------
  // The ancestor relation
  // ---------------------------------------------------------------------

  /**
   * An independent description of `ancestors`: `a` is an ancestor of `path`
   * exactly when `a` is in normal form and parses to the same root and a
   * proper prefix of the parts of `path`.
   */
  lemma AncestorsCharacterised(path: string, a: string)
    ensures IsAncestor(a, path) <==>
      && IsNormal(a)
      && Parse(a).root == Parse(path).root
      && |Parse(a).parts| < |Parse(path).parts|
      && Parse(a).parts == Parse(path).parts[..|Parse(a).parts|]
  {
    var p := Parse(path);
    if IsAncestor(a, path) {
      var k :| 0 <= k < |p.parts| && a == Str(p.Lead(k));
      ParseStr(p.Lead(k));
    }
    if IsNormal(a) && Parse(a).root == p.root && |Parse(a).parts| < |p.parts|
      && Parse(a).parts == p.parts[..|Parse(a).parts|]
    {
      var k := |Parse(a).parts|;
      assert Parse(a) == p.Lead(k);
      assert a == Str(p.Lead(k));
    }
  }

  /** Ancestors sit strictly higher in the tree: they have fewer parts. */
  lemma AncestorIsShorter(a: string, path: string)
    requires IsAncestor(a, path)
    ensures |Parse(a).parts| < |Parse(path).parts|
  {
    AncestorsCharacterised(path, a);
  }

  /** A path is never its own ancestor. */
  lemma NotOwnAncestor(path: string)
    ensures !IsAncestor(path, path)
  {
    if IsAncestor(path, path) {
      AncestorIsShorter(path, path);
    }
  }

  /** Exactly the paths without parts, such as "/", "//" and ".", have no ancestors. */
  lemma NoAncestorsIffTop(path: string)
    ensures Ancestors(path) == {} <==> Parse(path).parts == []
  {
  }

  /** An absolute path below the root always has the root "/" among its ancestors. */
  lemma RootIsAncestor(path: string)
    requires Parse(path).root == "/" && |Parse(path).parts| > 0
    ensures IsAncestor("/", path)
  {
    assert Str(Parse(path).Lead(0)) == "/";
  }

  /** The ancestor relation is transitive. */
  lemma AncestorsTransitive(q: string, path: string)
    requires IsAncestor(q, path)
    ensures Ancestors(q) <= Ancestors(path)
  {
    forall a | a in Ancestors(q) ensures a in Ancestors(path) {
      AncestorsCharacterised(q, a);
      AncestorsCharacterised(path, q);
      AncestorsCharacterised(path, a);
      var n := |Parse(a).parts|;
      assert Parse(a).parts == Parse(path).parts[..n] by {
        assert Parse(q).parts == Parse(path).parts[..|Parse(q).parts|];
      }
    }
  }

  /** Ancestors depend only on the normal form of a path. */
  lemma AncestorsOfNormalForm(path: string)
    ensures Ancestors(Normalise(path)) == Ancestors(path)
  {
  }

  /** The rendered parents of `p` with fewer than `n` parts. */
  ghost function Leads(p: PurePath, n: nat): set<string>
    requires p.Valid() && n <= |p.parts|
  {
    set k | 0 <= k < n :: Str(p.Lead(k))
  }

  lemma {:induction false} LeadsCount(p: PurePath, n: nat)
    requires p.Valid() && n <= |p.parts|
    ensures |Leads(p, n)| == n
  {
    if n > 0 {
      LeadsCount(p, n - 1);
      var top := Str(p.Lead(n - 1));
      assert Leads(p, n) == Leads(p, n - 1) + {top};
      if top in Leads(p, n - 1) {
        var k :| 0 <= k < n - 1 && top == Str(p.Lead(k));
        StrInjective(p.Lead(k), p.Lead(n - 1));
        assert false;
      }
    }
  }

  /** One ancestor per level above the path: as many ancestors as parts. */
  lemma AncestorCount(path: string)
    ensures |Ancestors(path)| == |Parse(path).parts|
  {
    var p := Parse(path);
    assert Ancestors(path) == Leads(p, |p.parts|);
    LeadsCount(p, |p.parts|);
  }

  /**
   * Only a path in normal form can be an ancestor: below a root, one that
   * ends with a separator never is.
   */
  lemma OnlyNormalAncestors(a: string, path: string)
    requires IsAncestor(a, path)
    ensures IsNormal(a)
    ensures |Parse(a).parts| > 0 ==> a[|a| - 1] != '/'
  {
    AncestorsCharacterised(path, a);
    var q := Parse(a);
    assert a == Str(q);
    if |q.parts| > 0 {
      JoinLast(q.parts);
      assert a == q.root + Join(q.parts);
      assert a[|a| - 1] == Join(q.parts)[|Join(q.parts)| - 1];
    }
  }

  lemma {:induction false} JoinLast(parts: seq<string>)
    requires |parts| > 0
    requires forall i :: 0 <= i < |parts| ==> IsPart(parts[i])
    ensures |Join(parts)| > 0 && Join(parts)[|Join(parts)| - 1] != '/'
    decreases |parts|
  {
    if |parts| > 1 {
      JoinLast(parts[1..]);
    } else {
      assert IsPart(parts[0]);
    }
  }

  // ---------------------------------------------------------------------
  // The reduction
  // ---------------------------------------------------------------------

  /**
   * A path is kept exactly when it is a member and none of its ancestors is:
   * the definition of `UnifyAncestors`, stated for callers; it needs no proof.
   */
  lemma UnifyMembership(paths: set<string>, p: string)
    ensures p in UnifyAncestors(paths) <==> p in paths && Ancestors(p) !! paths
  {
  }

  /** Reducing a reduced set changes nothing. */
  lemma UnifyIdempotent(paths: set<string>)
    ensures UnifyAncestors(UnifyAncestors(paths)) == UnifyAncestors(paths)
  {
  }

  /** Every member of `paths` lies in the subtree of a kept member. */
  lemma {:induction false} UnifyCovers(paths: set<string>, p: string)
    requires p in paths
    ensures Covered(UnifyAncestors(paths), p)
    decreases |Parse(p).parts|
  {
    var r := UnifyAncestors(paths);
    if p !in r {
      var a :| a in Ancestors(p) && a in paths;
      AncestorIsShorter(a, p);
      UnifyCovers(paths, a);
      if a in r {
        assert IsAncestor(a, p);
      } else {
        var q :| q in r && IsAncestor(q, a);
        AncestorsTransitive(a, p);
        assert IsAncestor(q, p);
      }
    }
  }

  /**
   * The reduction is the only subset of `paths` that is an antichain and
   * covers every member of `paths`.
   */
  lemma UnifyUnique(paths: set<string>, roots: set<string>)
    requires roots <= paths && Antichain(roots)
    requires forall p :: p in paths ==> Covered(roots, p)
    ensures roots == UnifyAncestors(paths)
  {
    var r := UnifyAncestors(paths);
    forall p | p in r ensures p in roots {
      assert Covered(roots, p);
    }
    forall p | p in roots ensures p in r {
      if a :| a in Ancestors(p) && a in paths {
        assert Covered(roots, a);
        if a !in roots {
          var q :| q in roots && IsAncestor(q, a);
          AncestorsTransitive(a, p);
          assert IsAncestor(q, p);
        }
        assert false;
      }
    }
  }

  /** A recursive operation over the reduction reaches exactly what one over `paths` would. */
  lemma UnifyPreservesCoverage(paths: set<string>, x: string)
    ensures Covered(UnifyAncestors(paths), x) <==> Covered(paths, x)
  {
    var r := UnifyAncestors(paths);
    if Covered(paths, x) {
      if x in paths {
        UnifyCovers(paths, x);
      } else {
        var a :| a in paths && IsAncestor(a, x);
        UnifyCovers(paths, a);
        if a !in r {
          var q :| q in r && IsAncestor(q, a);
          AncestorsTransitive(a, x);
          assert IsAncestor(q, x);
        }
      }
    }
  }

  /** Two ancestors of one path lie on one chain: equal, or one above the other. */
  lemma AncestorsChain(x: string, a: string, b: string)
    requires IsAncestor(a, x) && IsAncestor(b, x)
    ensures a == b || IsAncestor(a, b) || IsAncestor(b, a)
  {
    AncestorsCharacterised(x, a);
    AncestorsCharacterised(x, b);
    var pa, pb, px := Parse(a), Parse(b), Parse(x);
    if |pa.parts| == |pb.parts| {
      assert pa == pb;
    } else if |pa.parts| < |pb.parts| {
      assert pa.parts == pb.parts[..|pa.parts|];
      AncestorsCharacterised(b, a);
    } else {
      assert pb.parts == pa.parts[..|pb.parts|];
      AncestorsCharacterised(a, b);
    }
  }

  /**
   * A path lies in the subtree of at most one kept root, so a recursive
   * operation over the reduction reaches each path once.
   */
  lemma CoveredOnce(paths: set<string>, x: string, r1: string, r2: string)
    requires r1 in UnifyAncestors(paths) && r2 in UnifyAncestors(paths)
    requires x == r1 || IsAncestor(r1, x)
    requires x == r2 || IsAncestor(r2, x)
    ensures r1 == r2
  {
    if x != r1 && x != r2 {
      AncestorsChain(x, r1, r2);
    }
  }
}
