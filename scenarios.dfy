/**
 * Instances of the reducer on a directory "/t/a" holding files "/t/a/n" and
 * "/t/a/m", stated for any names and then for "/tmp/a", "x.txt" and "y.txt".
 */
module Scenarios {
  import opened PurePaths
  import opened Ops

  lemma DirAncestors(t: string, a: string)
    requires IsPart(t) && IsPart(a)
    ensures Ancestors(Str(PurePath("/", [t, a]))) == {Str(PurePath("/", [t])), "/"}
  {
    var p := PurePath("/", [t, a]);
    assert p.Valid();
    ParseStr(p);
    assert Str(p.Lead(0)) == "/";
    assert p.Lead(0) == PurePath("/", []);
    assert p.Lead(1) == PurePath("/", [t]);
    assert Ancestors(Str(p)) == {Str(p.Lead(0)), Str(p.Lead(1))};
  }

  lemma FileAncestors(t: string, a: string, n: string)
    requires IsPart(t) && IsPart(a) && IsPart(n)
    ensures Ancestors(Str(PurePath("/", [t, a, n])))
         == {Str(PurePath("/", [t, a])), Str(PurePath("/", [t])), "/"}
  {
    var p := PurePath("/", [t, a, n]);
    assert p.Valid();
    ParseStr(p);
    var r := Ancestors(Str(p));
    var levels := {Str(p.Lead(2)), Str(p.Lead(1)), Str(p.Lead(0))};
    assert Str(p.Lead(0)) == "/";
    assert p.Lead(1) == PurePath("/", [t]);
    assert p.Lead(2) == PurePath("/", [t, a]);
    forall x | x in r ensures x in levels {
      var k :| 0 <= k < 3 && x == Str(p.Lead(k));
    }
    assert Str(p.Lead(0)) in r && Str(p.Lead(1)) in r && Str(p.Lead(2)) in r;
  }

  /** A directory listed with two of its files absorbs both. */
  lemma DirectoryAbsorbsFilesAt(t: string, a: string, n: string, m: string)
    requires IsPart(t) && IsPart(a) && IsPart(n) && IsPart(m)
    ensures
      var dir := Str(PurePath("/", [t, a]));
      UnifyAncestors({dir, Str(PurePath("/", [t, a, n])), Str(PurePath("/", [t, a, m]))}) == {dir}
  {
    var dir := Str(PurePath("/", [t, a]));
    var x := Str(PurePath("/", [t, a, n]));
    var y := Str(PurePath("/", [t, a, m]));
    DirAncestors(t, a);
    FileAncestors(t, a, n);
    FileAncestors(t, a, m);
    NotOwnAncestor(dir);
    StrInjective(PurePath("/", [t]), PurePath("/", [t, a, n]));
    StrInjective(PurePath("/", [t]), PurePath("/", [t, a, m]));
    StrInjective(PurePath("/", []), PurePath("/", [t, a, n]));
    StrInjective(PurePath("/", []), PurePath("/", [t, a, m]));
    assert Str(PurePath("/", [])) == "/";
    assert Ancestors(dir) !! {dir, x, y};
    assert dir in UnifyAncestors({dir, x, y});
  }

  /**
   * A directory written with a trailing separator is not an ancestor of its
   * file, so both are kept.
   */
  lemma TrailingSeparatorKeepsBothAt(t: string, a: string, n: string)
    requires IsPart(t) && IsPart(a) && IsPart(n)
    ensures
      var dir := Str(PurePath("/", [t, a])) + "/";
      var x := Str(PurePath("/", [t, a, n]));
      !IsAncestor(dir, x) && UnifyAncestors({dir, x}) == {dir, x}
  {
    var p := PurePath("/", [t, a]);
    var dir := Str(p) + "/";
    var x := Str(PurePath("/", [t, a, n]));
    TrailingSeparatorIgnored(p);
    ParseStr(PurePath("/", [t, a, n]));
    if IsAncestor(dir, x) {
      OnlyNormalAncestors(dir, x);
    }
    if IsAncestor(x, dir) {
      AncestorIsShorter(x, dir);
    }
    if IsAncestor(dir, dir) {
      NotOwnAncestor(dir);
    }
    if IsAncestor(x, x) {
      NotOwnAncestor(x);
    }
    assert dir in UnifyAncestors({dir, x});
    assert x in UnifyAncestors({dir, x});
  }

  /** Normalising the directory first restores the collapse. */
  lemma NormalisingFirstCollapsesAt(t: string, a: string, n: string)
    requires IsPart(t) && IsPart(a) && IsPart(n)
    ensures
      var dir := Str(PurePath("/", [t, a]));
      Normalise(dir + "/") == dir &&
      UnifyAncestors({Normalise(dir + "/"), Str(PurePath("/", [t, a, n]))}) == {dir}
  {
    var p := PurePath("/", [t, a]);
    TrailingSeparatorIgnored(p);
    DirectoryAbsorbsFilesAt(t, a, n, n);
  }

  /**
   * The layout spelled out: "/tmp/a" and its files "x.txt" and "y.txt", as
   * parsed paths. The lemmas below state the reduction over these renderings;
   * kept apart from the literal strings, the verifier does not unfold the
   * parser on them.
   */
  lemma TmpLayoutRendered()
    ensures Str(PurePath("/", ["tmp", "a"])) == "/tmp/a"
    ensures Str(PurePath("/", ["tmp", "a"])) + "/" == "/tmp/a/"
    ensures Str(PurePath("/", ["tmp", "a", "x.txt"])) == "/tmp/a/x.txt"
    ensures Str(PurePath("/", ["tmp", "a", "y.txt"])) == "/tmp/a/y.txt"
  {
    assert Join(["tmp", "a"]) == "tmp/a";
    assert Join(["a", "x.txt"]) == "a/x.txt";
    assert Join(["tmp", "a", "x.txt"]) == "tmp/a/x.txt";
    assert Join(["a", "y.txt"]) == "a/y.txt";
    assert Join(["tmp", "a", "y.txt"]) == "tmp/a/y.txt";
  }

  /** "/tmp/a" listed with "/tmp/a/x.txt" and "/tmp/a/y.txt" reduces to "/tmp/a" alone. */
  lemma DirectoryAbsorbsFiles()
    ensures
      var dir := Str(PurePath("/", ["tmp", "a"]));
      var x := Str(PurePath("/", ["tmp", "a", "x.txt"]));
      var y := Str(PurePath("/", ["tmp", "a", "y.txt"]));
      UnifyAncestors({dir, x, y}) == {dir}
  {
    DirectoryAbsorbsFilesAt("tmp", "a", "x.txt", "y.txt");
  }

  /** "/tmp/a/" is not recognised as the parent of "/tmp/a/x.txt", and both are kept. */
  lemma TrailingSeparatorKeepsBoth()
    ensures
      var dir := Str(PurePath("/", ["tmp", "a"])) + "/";
      var x := Str(PurePath("/", ["tmp", "a", "x.txt"]));
      !IsAncestor(dir, x) && UnifyAncestors({dir, x}) == {dir, x}
  {
    TrailingSeparatorKeepsBothAt("tmp", "a", "x.txt");
  }

  /** Normalising "/tmp/a/" before reducing gives the single root "/tmp/a". */
  lemma NormalisingFirstCollapses()
    ensures
      var dir := Str(PurePath("/", ["tmp", "a"]));
      var x := Str(PurePath("/", ["tmp", "a", "x.txt"]));
      Normalise(dir + "/") == dir && UnifyAncestors({Normalise(dir + "/"), x}) == {dir}
  {
    NormalisingFirstCollapsesAt("tmp", "a", "x.txt");
  }
}
