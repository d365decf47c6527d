/** The document loader of load_docs.py.

    The directory listing, the UTF-8 reader of text files and the page texts
    that the PDF reader extracts are supplied as inputs: `listing` is what
    `os.listdir` returned, `readText(name)` the contents of a `.txt`/`.md`
    file and `pdfPages(name)` the per-page result of `extract_text()`, where
    `None` is a page without a text layer. */
module LoadDocs {
  import opened Wrappers

  datatype Document = Document(filename: string, text: string)

  /** What the extension test decides for a listed file. */
  datatype FileKind = Pdf | PlainText | Unsupported

  /** `str.lower()` on ASCII letters. */
  function LowerChar(c: char): char
  {
    if 'A' <= c <= 'Z' then (c as int + 32) as char else c
  }

  function Lower(s: string): (r: string)
    ensures |r| == |s|
    ensures forall i :: 0 <= i < |s| ==> r[i] == LowerChar(s[i])
  {
    if s == [] then [] else [LowerChar(s[0])] + Lower(s[1..])
  }

  predicate EndsWith(s: string, suffix: string)
  {
    |suffix| <= |s| && s[|s| - |suffix|..] == suffix
  }

  /** The dispatch of `load_documents`: `.pdf` first, then `.txt` or `.md`,
      on the lower-cased name; everything else is skipped. */
  function KindOf(filename: string): FileKind
  {
    var name := Lower(filename);
    if EndsWith(name, ".pdf") then Pdf
    else if EndsWith(name, ".txt") || EndsWith(name, ".md") then PlainText
    else Unsupported
  }

  /** The text `load_pdf` builds: every page's text in page order, a page
      without text contributing the empty string. */
  function PageText(pages: seq<Option<string>>): string
  {
    if pages == [] then []
    else PageText(pages[..|pages| - 1]) + PageOrEmpty(pages[|pages| - 1])
  }

  function PageOrEmpty(page: Option<string>): string
  {
    match page
    case Some(t) => t
    case None => []
  }

  /** load_pdf: accumulates `text += page.extract_text() or ""`. */
  method LoadPdf(pages: seq<Option<string>>) returns (text: string)
    ensures text == PageText(pages)
  {
    text := [];
    for p := 0 to |pages|
      invariant text == PageText(pages[..p])
    {
      text := text + PageOrEmpty(pages[p]);
      assert pages[..p + 1][..p] == pages[..p];
    }
    assert pages[..|pages|] == pages;
  }

  /** The documents `load_documents` returns for a listing. */
  function Loaded(listing: seq<string>, readText: string -> string,
                  pdfPages: string -> seq<Option<string>>): seq<Document>
  {
    if listing == [] then []
    else
      var name := listing[|listing| - 1];
      var earlier := Loaded(listing[..|listing| - 1], readText, pdfPages);
      match KindOf(name)
      case Pdf => earlier + [Document(name, PageText(pdfPages(name)))]
      case PlainText => earlier + [Document(name, readText(name))]
      case Unsupported => earlier
  }

  /** load_documents: one pass over the listing, appending a document for
      every file whose extension is supported. */
  method LoadDocuments(listing: seq<string>, readText: string -> string,
                       pdfPages: string -> seq<Option<string>>)
    returns (documents: seq<Document>)
    ensures documents == Loaded(listing, readText, pdfPages)
    ensures |documents| <= |listing|
  {
    documents := [];
    for k := 0 to |listing|
      invariant documents == Loaded(listing[..k], readText, pdfPages)
      invariant |documents| <= k
    {
      var filename := listing[k];
      assert listing[..k + 1][..k] == listing[..k];
      var kind := KindOf(filename);
      if kind != Unsupported {
        var text;
        if kind == Pdf {
          text := LoadPdf(pdfPages(filename));
        } else {
          text := readText(filename);
        }
        documents := documents + [Document(filename, text)];
      }
    }
    assert listing[..|listing|] == listing;
  }

  // ---------------------------------------------------------------------
  // Properties

  /** Lower-casing is idempotent, so the dispatch gives the same answer for
      a name and its lower-cased form. */
  lemma {:induction false} LowerIdempotent(s: string)
    ensures Lower(Lower(s)) == Lower(s)
  {
    if s != [] {
      LowerIdempotent(s[1..]);
      assert Lower(s)[1..] == Lower(s[1..]);
    }
  }

  lemma KindIgnoresCase(filename: string)
    ensures KindOf(Lower(filename)) == KindOf(filename)
  {
    LowerIdempotent(filename);
  }

  /** A file is kept iff its lower-cased name ends with `.pdf`, `.txt` or
      `.md`; `.pdf` takes the PDF reader. */
  lemma KindCases(filename: string)
    ensures KindOf(filename) != Unsupported <==>
              (EndsWith(Lower(filename), ".pdf") || EndsWith(Lower(filename), ".txt")
               || EndsWith(Lower(filename), ".md"))
    ensures KindOf(filename) == Pdf <==> EndsWith(Lower(filename), ".pdf")
  {
  }

  /** Upper-case extensions are recognised. */
  lemma UpperCasePdf()
    ensures KindOf("A.PDF") == Pdf
  {
    var name := Lower("A.PDF");
    assert name == "a.pdf";
    assert EndsWith(name, ".pdf");
  }

  lemma UpperCaseMarkdown()
    ensures KindOf("notes.MD") == PlainText
  {
    var name := Lower("notes.MD");
    assert name == "notes.md";
    assert !EndsWith(name, ".pdf");
    assert EndsWith(name, ".md");
  }

  /** Loading a listing is loading its parts one after the other: the output
      keeps the directory-listing order. */
  lemma {:induction false} LoadedAppend(a: seq<string>, b: seq<string>, readText: string -> string,
                                        pdfPages: string -> seq<Option<string>>)
    ensures Loaded(a + b, readText, pdfPages)
            == Loaded(a, readText, pdfPages) + Loaded(b, readText, pdfPages)
    decreases |b|
  {
    if b == [] {
      assert a + b == a;
    } else {
      var b' := b[..|b| - 1];
      assert (a + b)[..|a + b| - 1] == a + b';
      assert (a + b)[|a + b| - 1] == b[|b| - 1];
      LoadedAppend(a, b', readText, pdfPages);
    }
  }

  /** A single listed file contributes one document named by its listed name
      (not the joined path) when its extension is supported, none otherwise. */
  lemma LoadedSingle(name: string, readText: string -> string, pdfPages: string -> seq<Option<string>>)
    ensures Loaded([name], readText, pdfPages) ==
              match KindOf(name)
              case Pdf => [Document(name, PageText(pdfPages(name)))]
              case PlainText => [Document(name, readText(name))]
              case Unsupported => []
  {
    assert [name][..0] == [];
  }

  /** A name appears among the loaded documents iff it was listed and its
      extension is supported. */
  lemma {:induction false} LoadedNames(listing: seq<string>, readText: string -> string,
                                       pdfPages: string -> seq<Option<string>>, name: string)
    ensures (exists i :: 0 <= i < |Loaded(listing, readText, pdfPages)| &&
                         Loaded(listing, readText, pdfPages)[i].filename == name)
            <==> (name in listing && KindOf(name) != Unsupported)
  {
    if listing != [] {
      var init := listing[..|listing| - 1];
      var last := listing[|listing| - 1];
      LoadedNames(init, readText, pdfPages, name);
      assert listing == init + [last];
      var docs := Loaded(listing, readText, pdfPages);
      var earlier := Loaded(init, readText, pdfPages);
      if name in listing && KindOf(name) != Unsupported {
        if name == last {
          assert docs[|docs| - 1].filename == name;
        } else {
          assert name in init;
          var i :| 0 <= i < |earlier| && earlier[i].filename == name;
          assert docs[i] == earlier[i];
        }
      }
      if exists i :: 0 <= i < |docs| && docs[i].filename == name {
        var i :| 0 <= i < |docs| && docs[i].filename == name;
        if i < |earlier| {
          assert earlier[i] == docs[i];
          assert (exists j :: 0 <= j < |Loaded(init, readText, pdfPages)| && Loaded(init, readText, pdfPages)[j].filename == name);
          assert name in init && KindOf(name) != Unsupported;
          assert name in listing;
        } else {
          assert docs[i].filename == last;
        }
      }
    }
  }

  /** Page texts concatenate in page order. */
  lemma {:induction false} PageTextAppend(p: seq<Option<string>>, q: seq<Option<string>>)
    ensures PageText(p + q) == PageText(p) + PageText(q)
    decreases |q|
  {
    if q == [] {
      assert p + q == p;
    } else {
      var q' := q[..|q| - 1];
      assert (p + q)[..|p + q| - 1] == p + q';
      assert (p + q)[|p + q| - 1] == q[|q| - 1];
      assert PageText(p + q) == PageText(p + q') + PageOrEmpty(q[|q| - 1]);
      assert PageText(q) == PageText(q') + PageOrEmpty(q[|q| - 1]);
      PageTextAppend(p, q');
    }
  }

  /** A page without text changes nothing; no pages give the empty string. */
  lemma NonePageIsEmpty(p: seq<Option<string>>, q: seq<Option<string>>)
    ensures PageText(p + [None] + q) == PageText(p + q)
    ensures PageText([]) == []
  {
    PageTextAppend(p + [None], q);
    PageTextAppend(p, [None]);
    PageTextAppend(p, q);
    var none: seq<Option<string>> := [None];
    assert none[..0] == [];
  }
}
