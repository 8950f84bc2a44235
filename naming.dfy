/**
  Naming the output file: the title returned by the generation service has
  every `/` replaced by `_` and surrounding whitespace stripped, and the
  result plus `.pdf` is placed in the `Cover_Letters` directory under the
  program's base directory. Paths follow POSIX `pathlib` joining.
 */
module Naming {
  import opened PyText

  /** `title_text.replace("/", "_").strip()`. */
  function SafeTitle(title: string): (r: string)
    ensures forall k :: 0 <= k < |r| ==> r[k] != '/'
    ensures Trimmed(r)
  {
    Strip(ReplaceChar(title, '/', '_'))
  }

  /**
    `r` is the stretch of `title` starting at `i` with each `/` turned into
    `_`, and everything of `title` before and after that stretch is whitespace.
   */
  predicate SanitisedStretch(title: string, r: string, i: int) {
    && 0 <= i <= |title| - |r|
    && SpaceBetween(title, 0, i)
    && SpaceBetween(title, i + |r|, |title|)
    && forall k :: 0 <= k < |r| ==> r[k] == (if title[i + k] == '/' then '_' else title[i + k])
  }

  /**
    A stretch of `t`, the title with each `/` turned into `_`, flanked by
    whitespace, is a sanitised stretch of the title.
   */
  lemma StretchOfReplaced(title: string, t: string, r: string, i: int)
    requires |t| == |title|
    requires forall k :: 0 <= k < |title| ==> t[k] == (if title[k] == '/' then '_' else title[k])
    requires 0 <= i <= |t| - |r| && r == t[i..i + |r|]
    requires SpaceBetween(t, 0, i) && SpaceBetween(t, i + |r|, |t|)
    ensures SanitisedStretch(title, r, i)
  {
    forall k | 0 <= k < |r| ensures r[k] == (if title[i + k] == '/' then '_' else title[i + k]) {
      assert r[k] == t[i + k];
    }
    forall k | 0 <= k < |title| && (k < i || i + |r| <= k) ensures IsSpace(title[k]) {
      assert IsSpace(t[k]);
      assert t[k] != '_';
    }
  }

  /** The safe title is the title with slashes replaced and surrounding whitespace cut off. */
  lemma {:induction false} SafeTitleFromTitle(title: string)
    ensures exists i :: SanitisedStretch(title, SafeTitle(title), i)
  {
    var t := ReplaceChar(title, '/', '_');
    var i := StripPosition(t);
    StretchOfReplaced(title, t, Strip(t), i);
    assert SanitisedStretch(title, SafeTitle(title), i);
  }

  /** Sanitising a second time changes nothing. */
  lemma {:induction false} SafeTitleIdempotent(title: string)
    ensures SafeTitle(SafeTitle(title)) == SafeTitle(title)
  {
    var r := SafeTitle(title);
    assert ReplaceChar(r, '/', '_') == r;
    StripIdempotent(ReplaceChar(title, '/', '_'));
  }

  /** A title with no surrounding whitespace only has its slashes replaced. */
  lemma {:induction false} SafeTitleOfTrimmed(title: string)
    requires Trimmed(title)
    ensures SafeTitle(title) == ReplaceChar(title, '/', '_')
  {
    var t := ReplaceChar(title, '/', '_');
    assert Trimmed(t);
    assert t[0..|t|] == t;
    StripUnique(t, 0, |t|);
  }

  /** A path as `pathlib` keeps it: whether it starts at the root, and its components. */
  datatype FsPath = FsPath(absolute: bool, parts: seq<string>)

  /** The components `pathlib` keeps: empty and `.` components are dropped. */
  function Components(pieces: seq<string>): (r: seq<string>)
    ensures forall k :: 0 <= k < |r| ==> r[k] != "" && r[k] != "."
    ensures forall p :: p in r <==> p in pieces && p != "" && p != "."
    ensures |r| <= |pieces|
    ensures (forall k :: 0 <= k < |pieces| ==> pieces[k] != "" && pieces[k] != ".") ==> r == pieces
  {
    if pieces == [] then []
    else (if pieces[0] == "" || pieces[0] == "." then [] else [pieces[0]]) + Components(pieces[1..])
  }

  /** One piece is kept exactly when it is neither empty nor `.`. */
  lemma ComponentsOne(p: string)
    ensures Components([p]) == if p == "" || p == "." then [] else [p]
  {
    assert [p][1..] == [];
  }

  /**
    Filtering works piece by piece and keeps order: the components of two
    lists put together are the components of each, in order.
   */
  lemma {:induction false} ComponentsConcat(a: seq<string>, b: seq<string>)
    ensures Components(a + b) == Components(a) + Components(b)
    decreases |a|
  {
    if a == [] {
      assert a + b == b;
    } else {
      assert (a + b)[0] == a[0];
      assert (a + b)[1..] == a[1..] + b;
      ComponentsConcat(a[1..], b);
    }
  }

  /** `PurePosixPath(s)`: split at `/`; a leading `/` makes the path absolute. */
  function ParsePath(s: string): FsPath {
    FsPath(|s| > 0 && s[0] == '/', Components(Split(s, "/")))
  }

  /** `p / s`: an absolute right-hand side replaces the path, a relative one extends it. */
  function JoinPath(p: FsPath, s: string): FsPath {
    var q := ParsePath(s);
    if q.absolute then q else FsPath(p.absolute, p.parts + q.parts)
  }

  /** The output directory, relative to the base directory. */
  const OutputDir: string := "Cover_Letters"

  /** `f"{safe_title}.pdf"`. */
  function OutputFileName(title: string): (name: string)
    ensures forall k :: 0 <= k < |name| ==> name[k] != '/'
  {
    SafeTitle(title) + ".pdf"
  }

  /** `BASE_DIR / "Cover_Letters" / f"{safe_title}.pdf"`. */
  function OutputPath(base: FsPath, title: string): FsPath {
    JoinPath(JoinPath(base, OutputDir), OutputFileName(title))
  }

  /** A non-empty string other than `.` with no `/` is one relative path component. */
  lemma {:induction false} SingleComponent(s: string)
    requires s != "" && s != "."
    requires forall k :: 0 <= k < |s| ==> s[k] != '/'
    ensures ParsePath(s) == FsPath(false, [s])
  {
    forall m | 0 <= m < |s| ensures !MatchAt(s, "/", m) {
      if m + 1 <= |s| { assert s[m..m + 1][0] == s[m]; }
    }
    SplitWithoutSeparator(s, "/");
    assert Components([s]) == [s] by { assert [s][1..] == []; }
    assert s[0] != '/';
  }

  /** Joining two single components onto a path appends exactly those two components. */
  lemma {:induction false} JoinTwoComponents(base: FsPath, dir: string, name: string)
    requires dir != "" && dir != "." && forall k :: 0 <= k < |dir| ==> dir[k] != '/'
    requires name != "" && name != "." && forall k :: 0 <= k < |name| ==> name[k] != '/'
    ensures JoinPath(JoinPath(base, dir), name) == FsPath(base.absolute, base.parts + [dir, name])
  {
    SingleComponent(dir);
    SingleComponent(name);
  }

  /**
    Whatever title the service returns, the output file lands directly in
    `Cover_Letters` under the base directory: the path is the base path plus
    exactly two components, the directory and the safe title with `.pdf`.
   */
  lemma {:induction false} OutputPathShape(base: FsPath, title: string)
    ensures OutputPath(base, title) == FsPath(base.absolute, base.parts + [OutputDir, SafeTitle(title) + ".pdf"])
  {
    var name := OutputFileName(title);
    assert |name| >= 4;
    JoinTwoComponents(base, OutputDir, name);
  }
}
