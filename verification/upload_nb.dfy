/** The file names the notebook uploader derives: the html produced from a
    notebook, its date-tagged copy and the scp source and target. The date
    tag, the IC_DATA directory and the file-system and shell effects are
    outside the model; the first two are parameters. */
module UploadNb {

  /** `sep` occurs in `s` starting at index `j`. */
  predicate OccursAt(s: string, sep: string, j: int)
  {
    0 <= j && j + |sep| <= |s| && s[j..j + |sep|] == sep
  }

  /** s.split(sep)[0]: the text before the first occurrence of `sep`, or all
      of `s` when it does not occur. Python rejects an empty separator. */
  function Before(s: string, sep: string): (r: string)
    requires |sep| > 0
    ensures |r| <= |s| && r == s[..|r|]
    ensures forall j :: 0 <= j < |r| ==> !OccursAt(s, sep, j)
    ensures |r| < |s| ==> OccursAt(s, sep, |r|)
    decreases |s|
  {
    if |s| < |sep| then s
    else if s[..|sep|] == sep then []
    else
      var rest := Before(s[1..], sep);
      forall j | 1 <= j <= |rest| + 1 ensures OccursAt(s, sep, j) <==> OccursAt(s[1..], sep, j - 1) {
        OccursShifted(s, sep, j);
      }
      [s[0]] + rest
  }

  /** An occurrence at `j` > 0 is an occurrence at `j - 1` in the tail. */
  lemma OccursShifted(s: string, sep: string, j: int)
    requires |s| > 0 && 1 <= j
    ensures OccursAt(s, sep, j) <==> OccursAt(s[1..], sep, j - 1)
  {
    if j + |sep| <= |s| {
      assert s[j..j + |sep|] == s[1..][j - 1..j - 1 + |sep|];
    }
  }

  /** The characterisation of `Before` pins it down: the first occurrence of
      the separator, or the whole text. */
  lemma BeforeUnique(s: string, sep: string, i: int)
    requires |sep| > 0 && 0 <= i <= |s|
    requires forall j :: 0 <= j < i ==> !OccursAt(s, sep, j)
    requires i < |s| ==> OccursAt(s, sep, i)
    ensures Before(s, sep) == s[..i]
  {
    var r := Before(s, sep);
    assert |r| < |s| ==> OccursAt(s, sep, |r|);
    assert i < |s| ==> OccursAt(s, sep, i);
  }

  /** A separator cannot start where its first character is absent. */
  lemma NoOccurrenceWithoutHead(s: string, sep: string, j: int)
    requires |sep| > 0 && 0 <= j < |s| && s[j] != sep[0]
    ensures !OccursAt(s, sep, j)
  {
    if j + |sep| <= |s| {
      assert s[j..j + |sep|][0] == s[j];
    }
  }

  /** s.split(c)[-1]: the text after the last `c`, or all of `s` when `c`
      does not occur. */
  function AfterLast(s: string, c: char): (r: string)
    ensures |r| <= |s| && r == s[|s| - |r|..]
    ensures c !in r
    ensures |r| < |s| ==> s[|s| - |r| - 1] == c
  {
    if |s| == 0 then []
    else if s[|s| - 1] == c then []
    else
      var rest := AfterLast(s[..|s| - 1], c);
      assert s[..|s| - 1][|s| - 1 - |rest|..] + [s[|s| - 1]] == s[|s| - |rest| - 1..];
      rest + [s[|s| - 1]]
  }

  /** The characterisation of `AfterLast` pins it down. */
  lemma {:induction false} AfterLastUnique(s: string, c: char, t: string)
    requires |t| <= |s| && t == s[|s| - |t|..] && c !in t
    requires |t| < |s| ==> s[|s| - |t| - 1] == c
    ensures AfterLast(s, c) == t
  {
    if |t| > 0 {
      assert t[|t| - 1] == s[|s| - 1];
      assert t[..|t| - 1] == s[..|s| - 1][|s| - |t|..];
      AfterLastUnique(s[..|s| - 1], c, t[..|t| - 1]);
    }
  }

  /** nb_to_html: the html name jupyter writes next to the notebook, the text
      before the first ".ipynb" followed by ".html". */
  function HtmlName(nbName: string): (r: string)
    ensures |r| >= 5 && r[|r| - 5..] == ".html"
    ensures r[..|r| - 5] == Before(nbName, ".ipynb")
  {
    Before(nbName, ".ipynb") + ".html"
  }

  /** nb_to_html: the name of the local copy, the last "/"-separated component
      of the html name. */
  function LocalName(nbName: string): (r: string)
    ensures '/' !in r
  {
    AfterLast(HtmlName(nbName), '/')
  }

  /** tag_html: the text before the first "." followed by "_", the date tag
      and ".html". */
  function TagHtml(name: string, tag: string): (r: string)
    ensures r == Before(name, ".") + "_" + tag + ".html"
    ensures '.' !in Before(name, ".")
  {
    var stem := Before(name, ".");
    assert '.' !in stem by {
      forall j | 0 <= j < |stem| ensures stem[j] != '.' {
        assert !OccursAt(name, ".", j);
        assert name[j..j + 1] == [name[j]];
      }
    }
    stem + "_" + tag + ".html"
  }

  /** nb_to_html's result: the tagged name of the local copy, so the tag is
      applied to the base name and not to the full path. */
  function NbToHtml(nbName: string, tag: string): (r: string)
    ensures r == TagHtml(LocalName(nbName), tag)
    ensures '/' !in tag ==> '/' !in r
  {
    var local := LocalName(nbName);
    var stem := Before(local, ".");
    assert '/' !in stem by {
      forall j | 0 <= j < |stem| ensures stem[j] != '/' {
        assert stem[j] == local[j];
      }
    }
    TagHtml(local, tag)
  }

  /** The gallery directory on the server and the server's login. */
  const GalleryRoot: string := "/data/icgallery/public/"
  const ServerName: string := "icuser@next.ific.uv.es"

  /** What upload_notebook converts and what its scp copies where. */
  datatype Upload = Upload(notebook: string, tagged: string, source: string, target: string)

  /** upload_notebook: the notebook path is `pathToNb + nbName` with no
      separator inserted; the scp source is IC_DATA + "/" + the tagged name
      and the target is server:gallery-root + galleryDir. */
  function UploadNotebook(nbName: string, pathToNb: string, galleryDir: string,
                          icData: string, tag: string): (u: Upload)
    ensures u.notebook == pathToNb + nbName
    ensures u.tagged == NbToHtml(u.notebook, tag)
    ensures u.source == icData + "/" + u.tagged
    ensures u.target == ServerName + ":" + GalleryRoot + galleryDir
  {
    var notebook := pathToNb + nbName;
    var tagged := NbToHtml(notebook, tag);
    Upload(notebook, tagged, icData + "/" + tagged, ServerName + ":" + GalleryRoot + galleryDir)
  }

  /** A notebook path with no dot before its ".ipynb" converts to the same
      path with ".html". */
  lemma HtmlNameOfPlainPath(p: string)
    requires '.' !in p
    ensures HtmlName(p + ".ipynb") == p + ".html"
  {
    var s := p + ".ipynb";
    forall j | 0 <= j < |p| ensures !OccursAt(s, ".ipynb", j) {
      assert s[j] == p[j];
      NoOccurrenceWithoutHead(s, ".ipynb", j);
    }
    assert OccursAt(s, ".ipynb", |p|) by {
      assert s[|p|..|p| + 6] == ".ipynb";
    }
    BeforeUnique(s, ".ipynb", |p|);
    assert s[..|p|] == p;
  }

  /** Everything after the first dot is dropped from the tagged name: a name
      that starts with a dot-free stem followed by "." tags to stem_tag.html,
      whatever follows the dot. */
  lemma TagDropsAfterFirstDot(name: string, stem: string, tag: string)
    requires '.' !in stem
    requires |stem| < |name| && name[..|stem|] == stem && name[|stem|] == '.'
    ensures TagHtml(name, tag) == stem + "_" + tag + ".html"
  {
    forall j | 0 <= j < |stem| ensures !OccursAt(name, ".", j) {
      assert name[j] == stem[j];
      NoOccurrenceWithoutHead(name, ".", j);
    }
    assert OccursAt(name, ".", |stem|) by {
      assert name[|stem|..|stem| + 1] == [name[|stem|]];
    }
    BeforeUnique(name, ".", |stem|);
  }

  /** The local copy of a plain notebook dir/stem.ipynb is stem.html,
      whatever the directory. */
  lemma LocalNameOfPlainPath(dir: string, stem: string)
    requires '.' !in dir && '.' !in stem && '/' !in stem
    ensures LocalName(dir + "/" + stem + ".ipynb") == stem + ".html"
  {
    var p := dir + "/" + stem;
    assert '.' !in p by {
      forall j | 0 <= j < |p| ensures p[j] != '.' {
        if j < |dir| {
          assert p[j] == dir[j];
        } else if j > |dir| {
          assert p[j] == stem[j - |dir| - 1];
        }
      }
    }
    HtmlNameOfPlainPath(p);
    assert p + ".ipynb" == dir + "/" + stem + ".ipynb";
    var html := p + ".html";
    var base := stem + ".html";
    assert html == dir + "/" + base;
    assert '/' !in base by {
      forall j | 0 <= j < |base| ensures base[j] != '/' {
        if j < |stem| {
          assert base[j] == stem[j];
        }
      }
    }
    assert html[|html| - |base|..] == base;
    assert html[|html| - |base| - 1] == '/';
    AfterLastUnique(html, '/', base);
  }

  /** The end-to-end name of a plain notebook dir/stem.ipynb: the tagged html
      is stem_tag.html, whatever the directory. */
  lemma NbToHtmlOfPlainPath(dir: string, stem: string, tag: string)
    requires '.' !in dir && '.' !in stem && '/' !in stem
    ensures NbToHtml(dir + "/" + stem + ".ipynb", tag) == stem + "_" + tag + ".html"
  {
    var base := stem + ".html";
    LocalNameOfPlainPath(dir, stem);
    assert base[..|stem|] == stem && base[|stem|] == '.';
    TagDropsAfterFirstDot(base, stem, tag);
  }

  /** The file scp sends is the tagged name under IC_DATA: its last path
      component is the tagged name itself. */
  lemma UploadSendsTaggedFile(nbName: string, pathToNb: string, galleryDir: string,
                              icData: string, tag: string)
    requires '/' !in tag
    ensures var u := UploadNotebook(nbName, pathToNb, galleryDir, icData, tag);
            AfterLast(u.source, '/') == u.tagged
  {
    var u := UploadNotebook(nbName, pathToNb, galleryDir, icData, tag);
    var s := u.source;
    assert s[|s| - |u.tagged|..] == u.tagged;
    assert s[|s| - |u.tagged| - 1] == '/';
    AfterLastUnique(s, '/', u.tagged);
  }
}
