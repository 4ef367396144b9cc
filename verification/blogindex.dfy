/** scripts/generate-blog-index.js: the names of the posts, taken from the
    listing of the blog directory (given here as a sequence, in the order
    the directory returned it) and written to the index the post list
    reads. */
module BlogIndex {
  import opened Text

  const Extension: string := ".md"
  const Template: string := "POST_TEMPLATE.md"

  /** A file that is a post: a markdown file other than the template; the
      comparison is exact, case included. */
  predicate IsPostFile(f: string) {
    EndsWith(f, Extension) && f != Template
  }

  /** `file.replace('.md', '')` as written: the FIRST ".md" is removed,
      wherever it is. */
  function EntryAsWritten(f: string): (r: string)
    ensures |r| == |f| - 3 || (r == f && !Contains(f, Extension))
  {
    ReplaceFirst(f, Extension, "")
  }

  /** The name without its extension, as the post list expects: appending
      ".md" again gives back the file name. */
  function Entry(f: string): (r: string)
    requires EndsWith(f, Extension)
    ensures r + Extension == f
  {
    f[..|f| - 3]
  }

  /** The index as written. */
  function IndexAsWritten(files: seq<string>): (r: seq<string>)
    ensures |r| <= |files|
  {
    if files == [] then []
    else (if IsPostFile(files[0]) then [EntryAsWritten(files[0])] else []) + IndexAsWritten(files[1..])
  }

  /** The index with every name stripped of its final extension. */
  function Index(files: seq<string>): (r: seq<string>)
    ensures |r| <= |files|
  {
    if files == [] then []
    else (if IsPostFile(files[0]) then [Entry(files[0])] else []) + Index(files[1..])
  }

  /** The index is built file by file, so it keeps the directory's order. */
  lemma {:induction false} IndexAppend(a: seq<string>, b: seq<string>)
    ensures Index(a + b) == Index(a) + Index(b)
    decreases |a|
  {
    if a != [] {
      assert (a + b)[0] == a[0];
      assert (a + b)[1..] == a[1..] + b;
      IndexAppend(a[1..], b);
    } else {
      assert a + b == b;
    }
  }

  /** A name is in the index exactly when its markdown file, other than the
      template, is in the directory. */
  lemma {:induction false} IndexMembers(files: seq<string>, name: string)
    ensures name in Index(files) <==> name + Extension in files && IsPostFile(name + Extension)
    decreases |files|
  {
    if files != [] {
      IndexMembers(files[1..], name);
      assert files == [files[0]] + files[1..];
      if IsPostFile(files[0]) && Entry(files[0]) == name {
        assert files[0] == name + Extension;
      }
      if files[0] == name + Extension && IsPostFile(files[0]) {
        assert (name + Extension)[..|name + Extension| - 3] == name;
      }
    }
  }

  /** The template is never listed, and neither is a file of another kind. */
  lemma TemplateNeverListed(files: seq<string>)
    ensures "POST_TEMPLATE" !in Index(files)
    ensures forall i :: 0 <= i < |Index(files)| ==> Index(files)[i] + Extension in files
  {
    IndexMembers(files, "POST_TEMPLATE");
    assert "POST_TEMPLATE" + Extension == Template;
    forall i | 0 <= i < |Index(files)| ensures Index(files)[i] + Extension in files {
      IndexMembers(files, Index(files)[i]);
    }
  }

  /** Where ".md" occurs only as the extension, the code as written agrees
      with the stripped name. */
  lemma EntryAsWrittenAgrees(f: string)
    requires EndsWith(f, Extension) && Find(f, Extension) == Some(|f| - 3)
    ensures EntryAsWritten(f) == Entry(f)
  {
    assert f[|f|..] == [];
  }

  /** The index as written is also built file by file, in directory order. */
  lemma {:induction false} IndexAsWrittenAppend(a: seq<string>, b: seq<string>)
    ensures IndexAsWritten(a + b) == IndexAsWritten(a) + IndexAsWritten(b)
    decreases |a|
  {
    if a != [] {
      assert (a + b)[0] == a[0];
      assert (a + b)[1..] == a[1..] + b;
      IndexAsWrittenAppend(a[1..], b);
    } else {
      assert a + b == b;
    }
  }

  /** A name is in the index as written exactly when it is what the first
      replacement makes of some post file of the directory. */
  lemma {:induction false} IndexAsWrittenMembers(files: seq<string>, name: string)
    ensures name in IndexAsWritten(files) <==>
      exists f :: f in files && IsPostFile(f) && EntryAsWritten(f) == name
    decreases |files|
  {
    if files != [] {
      IndexAsWrittenMembers(files[1..], name);
      assert files == [files[0]] + files[1..];
      if exists f :: f in files && IsPostFile(f) && EntryAsWritten(f) == name {
        var f :| f in files && IsPostFile(f) && EntryAsWritten(f) == name;
        if f != files[0] {
          assert f in files[1..];
        }
      }
      if exists f :: f in files[1..] && IsPostFile(f) && EntryAsWritten(f) == name {
        var f :| f in files[1..] && IsPostFile(f) && EntryAsWritten(f) == name;
        assert f in files;
      }
    }
  }

  /** When no post file holds ".md" anywhere but at its end, the index as
      written is the intended one. */
  lemma {:induction false} IndexAsWrittenAgreesWithIndex(files: seq<string>)
    requires forall f :: f in files && IsPostFile(f) ==> Find(f, Extension) == Some(|f| - 3)
    ensures IndexAsWritten(files) == Index(files)
    decreases |files|
  {
    if files != [] {
      assert forall f :: f in files[1..] ==> f in files;
      IndexAsWrittenAgreesWithIndex(files[1..]);
      if IsPostFile(files[0]) {
        EntryAsWrittenAgrees(files[0]);
      }
    }
  }

  /** The first ".md" need not be the extension: "x.mdy.md" is listed as
      "xy.md", so the post list asks for "xy.md.md" instead of "x.mdy.md". */
  lemma EntryAsWrittenDropsInnerExtension()
    ensures IndexAsWritten(["x.mdy.md"]) == ["xy.md"]
    ensures Index(["x.mdy.md"]) == ["x.mdy"]
    ensures Entry("x.mdy.md") + Extension == "x.mdy.md"
    ensures EntryAsWritten("x.mdy.md") + Extension != "x.mdy.md"
  {
    var f := "x.mdy.md";
    assert f[1..4] == Extension;
    assert f[0..3][0] != Extension[0];
    assert FindFrom(f, Extension, 1) == Some(1);
    assert Find(f, Extension) == Some(1);
    assert f[..1] + "" + f[4..] == "xy.md";
    assert IsPostFile(f);
    assert Entry(f) == f[..5] == "x.mdy";
    assert ["x.mdy.md"][1..] == [];
  }
}
