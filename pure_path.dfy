/**
 * A model of the POSIX flavour of Python's `pathlib.PurePath` as far as
 * `ancestors` needs it: parsing a path string into a root and a list of
 * parts, rendering a parsed path back to a string with `str()`, and the
 * normalisation that the round trip performs.
 *
 * Parsing (POSIX flavour):
 *  - exactly two leading slashes give the root "//", one or three or more
 *    give the root "/", none gives the relative root "";
 *  - the rest is split on '/', and the empty and "." pieces are dropped;
 *    ".." is kept as an ordinary part.
 * Rendering joins the parts with '/' after the root, and renders the empty
 * relative path as ".".
 */
module PurePaths {

  /** A parsed path: its root ("", "/" or "//") and its parts. */
  datatype PurePath = PurePath(root: string, parts: seq<string>) {

    /** What parsing can produce: a known root and significant parts only. */
    predicate Valid() {
      && IsRoot(root)
      && forall i :: 0 <= i < |parts| ==> IsPart(parts[i])
    }

    /** The same path with only its first `k` parts: a parent when `k < |parts|`. */
    function Lead(k: nat): (q: PurePath)
      requires k <= |parts|
      ensures q.root == root && |q.parts| == k
      ensures forall i :: 0 <= i < k ==> q.parts[i] == parts[i]
    {
      this.(parts := parts[..k])
    }
  }

  predicate IsRoot(root: string) {
    root == "" || root == "/" || root == "//"
  }

  /** A significant part: not empty, not ".", and free of separators. */
  predicate IsPart(c: string) {
    c != "" && c != "." && '/' !in c
  }

  /** The number of separators a string starts with. */
  function LeadingSlashes(s: string): (n: nat)
    ensures n <= |s|
    ensures forall i :: 0 <= i < n ==> s[i] == '/'
    ensures n < |s| ==> s[n] != '/'
  {
    if |s| > 0 && s[0] == '/' then 1 + LeadingSlashes(s[1..]) else 0
  }

  /** The root that a run of `n` leading separators denotes. */
  function RootOf(n: nat): (root: string)
    ensures IsRoot(root)
    ensures root == "" <==> n == 0
    ensures root == "//" <==> n == 2
  {
    if n == 0 then "" else if n == 2 then "//" else "/"
  }

  /** Concatenation of `pieces` with '/' between neighbours (Python's `"/".join`). */
  function Join(pieces: seq<string>): string
  {
    if |pieces| == 0 then ""
    else if |pieces| == 1 then pieces[0]
    else pieces[0] + "/" + Join(pieces[1..])
  }

  /** Python's `s.split("/")`: the pieces between separators, empty ones included. */
  function Split(s: string): (pieces: seq<string>)
    ensures |pieces| >= 1
    ensures forall i :: 0 <= i < |pieces| ==> '/' !in pieces[i]
    ensures Join(pieces) == s
  {
    if |s| == 0 then [""]
    else
      var rest := Split(s[1..]);
      if s[0] == '/' then
        assert Join([""] + rest) == "" + "/" + Join(rest);
        [""] + rest
      else
        var first := [s[0]] + rest[0];
        assert s == [s[0]] + s[1..];
        assert |rest| > 1 ==> Join(rest) == rest[0] + "/" + Join(rest[1..]);
        assert |rest| > 1 ==> Join([first] + rest[1..]) == first + "/" + Join(rest[1..]);
        [first] + rest[1..]
  }

  /** The pieces that name a path component: neither empty nor ".". */
  function Significant(pieces: seq<string>): (parts: seq<string>)
    ensures |parts| <= |pieces|
    ensures forall c :: c in parts <==> c in pieces && c != "" && c != "."
  {
    if |pieces| == 0 then []
    else if pieces[0] == "" || pieces[0] == "." then Significant(pieces[1..])
    else [pieces[0]] + Significant(pieces[1..])
  }

  /** A single piece is kept exactly when it is neither empty nor ".". */
  lemma SignificantSingle(c: string)
    ensures Significant([c]) == if c == "" || c == "." then [] else [c]
  {
    assert [c][1..] == [];
  }

  /**
   * Filtering distributes over concatenation, so with `SignificantSingle` it
   * keeps the significant pieces in their order, repeats included.
   */
  lemma {:induction false} SignificantAppend(a: seq<string>, b: seq<string>)
    ensures Significant(a + b) == Significant(a) + Significant(b)
    decreases |a|
  {
    if |a| == 0 {
      assert a + b == b;
    } else {
      SignificantAppend(a[1..], b);
      assert (a + b)[0] == a[0];
      assert (a + b)[1..] == a[1..] + b;
    }
  }

  /** `PurePosixPath(s)`: the root and the parts of a path string. */
  function Parse(s: string): (p: PurePath)
    ensures p.Valid()
    ensures p.root == "" <==> (|s| == 0 || s[0] != '/')
  {
    var n := LeadingSlashes(s);
    var pieces := Split(s[n..]);
    var parts := Significant(pieces);
    assert forall i :: 0 <= i < |parts| ==> parts[i] in pieces;
    PurePath(RootOf(n), parts)
  }

  /** `str(p)`: the root followed by the parts joined with '/', or "." when both are empty. */
  function Str(p: PurePath): (s: string)
    requires p.Valid()
    ensures s != ""
  {
    if p.root == "" && p.parts == [] then "."
    else
      JoinStart(p.parts);
      p.root + Join(p.parts)
  }

  /** `str(PurePosixPath(s))`: the normal form of a path string. */
  function Normalise(s: string): (n: string)
    ensures Parse(n) == Parse(s)
  {
    ParseStr(Parse(s));
    Str(Parse(s))
  }

  /** Two path strings have the same normal form exactly when they parse alike. */
  lemma NormaliseCanonical(s: string, t: string)
    ensures Normalise(s) == Normalise(t) <==> Parse(s) == Parse(t)
  {
    StrInjective(Parse(s), Parse(t));
  }

  /** A path string that parsing and rendering give back unchanged. */
  predicate IsNormal(s: string) {
    Normalise(s) == s
  }

  // ---------------------------------------------------------------------
  // The round trip Parse(Str(p)) == p
  // ---------------------------------------------------------------------

  lemma {:induction false} SplitPlain(a: string)
    requires '/' !in a
    ensures Split(a) == [a]
    decreases |a|
  {
    if |a| > 0 {
      assert '/' !in a[1..] by {
        forall i | 0 <= i < |a[1..]| ensures a[1..][i] != '/' { assert a[1..][i] == a[i + 1]; }
      }
      SplitPlain(a[1..]);
      assert a == [a[0]] + a[1..];
    }
  }

  lemma {:induction false} SplitAtSlash(a: string, b: string)
    requires '/' !in a
    ensures Split(a + "/" + b) == [a] + Split(b)
    decreases |a|
  {
    var s := a + "/" + b;
    if |a| == 0 {
      assert s[1..] == b;
    } else {
      assert '/' !in a[1..] by {
        forall i | 0 <= i < |a[1..]| ensures a[1..][i] != '/' { assert a[1..][i] == a[i + 1]; }
      }
      SplitAtSlash(a[1..], b);
      assert s[1..] == a[1..] + "/" + b;
      assert s[0] == a[0];
      assert a == [a[0]] + a[1..];
    }
  }

  /** Splitting undoes joining, for pieces without separators. */
  lemma {:induction false} SplitJoin(pieces: seq<string>)
    requires |pieces| >= 1
    requires forall i :: 0 <= i < |pieces| ==> '/' !in pieces[i]
    ensures Split(Join(pieces)) == pieces
    decreases |pieces|
  {
    if |pieces| == 1 {
      SplitPlain(pieces[0]);
    } else {
      SplitJoin(pieces[1..]);
      SplitAtSlash(pieces[0], Join(pieces[1..]));
      assert pieces == [pieces[0]] + pieces[1..];
    }
  }

  lemma {:induction false} SignificantKeeps(parts: seq<string>)
    requires forall i :: 0 <= i < |parts| ==> IsPart(parts[i])
    ensures Significant(parts) == parts
    decreases |parts|
  {
    if |parts| > 0 {
      SignificantKeeps(parts[1..]);
      assert parts == [parts[0]] + parts[1..];
    }
  }

  lemma {:induction false} JoinStart(parts: seq<string>)
    requires |parts| == 0 || IsPart(parts[0])
    ensures |parts| > 0 ==> |Join(parts)| > 0 && Join(parts)[0] != '/'
  {
    if |parts| > 1 {
      assert Join(parts) == parts[0] + "/" + Join(parts[1..]);
    }
  }

  lemma {:induction false} LeadingSlashesOfRoot(root: string, rest: string)
    requires IsRoot(root)
    requires |rest| == 0 || rest[0] != '/'
    ensures LeadingSlashes(root + rest) == |root|
  {
    var s := root + rest;
    if root == "/" {
      assert s[1..] == rest;
    } else if root == "//" {
      assert s[1..] == "/" + rest;
      assert s[1..][1..] == rest;
    }
  }

  /** Rendering a parsed path and parsing it again gives the same path. */
  lemma {:induction false} ParseStr(p: PurePath)
    requires p.Valid()
    ensures Parse(Str(p)) == p
  {
    var s := Str(p);
    if p.root == "" && p.parts == [] {
      assert s == ".";
      assert LeadingSlashes(s) == 0;
      assert s[0..] == ".";
      SplitPlain(".");
      assert Significant(["."]) == Significant([]);
    } else {
      var body := Join(p.parts);
      JoinStart(p.parts);
      LeadingSlashesOfRoot(p.root, body);
      var n := |p.root|;
      assert s[n..] == body;
      assert RootOf(n) == p.root;
      if |p.parts| == 0 {
        assert Split("") == [""];
        assert Significant([""]) == Significant([]);
      } else {
        assert forall i :: 0 <= i < |p.parts| ==> '/' !in p.parts[i] by {
          forall i | 0 <= i < |p.parts| ensures '/' !in p.parts[i] { assert IsPart(p.parts[i]); }
        }
        SplitJoin(p.parts);
        SignificantKeeps(p.parts);
      }
    }
  }

  /** Rendering is injective on parsed paths. */
  lemma StrInjective(p: PurePath, q: PurePath)
    requires p.Valid() && q.Valid()
    ensures Str(p) == Str(q) <==> p == q
  {
    if Str(p) == Str(q) {
      ParseStr(p);
      ParseStr(q);
    }
  }

  /** The normal form is a fixed point of normalisation. */
  lemma NormaliseIdempotent(s: string)
    ensures IsNormal(Normalise(s))
  {
  }

  /** A rendered parsed path is in normal form. */
  lemma StrIsNormal(p: PurePath)
    requires p.Valid()
    ensures IsNormal(Str(p))
  {
    ParseStr(p);
  }

  // ---------------------------------------------------------------------
  // A trailing separator
  // ---------------------------------------------------------------------

  lemma {:induction false} SplitJoinSeparator(pieces: seq<string>)
    requires |pieces| >= 1
    requires forall i :: 0 <= i < |pieces| ==> '/' !in pieces[i]
    ensures Split(Join(pieces) + "/") == pieces + [""]
    decreases |pieces|
  {
    if |pieces| == 1 {
      assert Join(pieces) + "/" == pieces[0] + "/" + "";
      SplitAtSlash(pieces[0], "");
    } else {
      SplitJoinSeparator(pieces[1..]);
      assert Join(pieces) + "/" == pieces[0] + "/" + (Join(pieces[1..]) + "/");
      SplitAtSlash(pieces[0], Join(pieces[1..]) + "/");
      assert pieces + [""] == [pieces[0]] + (pieces[1..] + [""]);
    }
  }

  lemma {:induction false} SignificantDropsEmpty(parts: seq<string>)
    requires forall i :: 0 <= i < |parts| ==> IsPart(parts[i])
    ensures Significant(parts + [""]) == parts
    decreases |parts|
  {
    if |parts| == 0 {
      assert Significant([""]) == Significant([]);
    } else {
      SignificantDropsEmpty(parts[1..]);
      assert parts + [""] == [parts[0]] + (parts[1..] + [""]);
    }
  }

  /**
   * A separator appended to a rendered path below a root parses to the same
   * path, so the appended form is not in normal form.
   */
  lemma TrailingSeparatorIgnored(p: PurePath)
    requires p.Valid() && |p.parts| > 0
    ensures Parse(Str(p) + "/") == p
    ensures !IsNormal(Str(p) + "/")
  {
    var body := Join(p.parts);
    var s := Str(p) + "/";
    assert s == p.root + (body + "/");
    JoinStart(p.parts);
    LeadingSlashesOfRoot(p.root, body + "/");
    var n := |p.root|;
    assert s[n..] == body + "/";
    assert RootOf(n) == p.root;
    assert forall i :: 0 <= i < |p.parts| ==> '/' !in p.parts[i] by {
      forall i | 0 <= i < |p.parts| ensures '/' !in p.parts[i] { assert IsPart(p.parts[i]); }
    }
    SplitJoinSeparator(p.parts);
    SignificantDropsEmpty(p.parts);
    assert |Normalise(s)| == |Str(p)| < |s|;
  }
}
