/**
  `extract_text_from_pdf`: the text of every page, in page order, joined with
  no separator; any failure while reading yields no text at all.
 */
module PdfText {
  import opened Wrappers

  /** An uploaded file as the PDF reader sees it: either the reader cannot
      open it, or it has pages, each of whose text extraction yields a string
      (Some) or raises (None). */
  datatype Pdf = Unreadable | Pages(pages: seq<Option<string>>)

  /** The page texts laid end to end, first page first, with no separator. */
  function Join(parts: seq<string>): (text: string)
    ensures parts != [] ==> |parts[0]| <= |text| && text[..|parts[0]|] == parts[0]
  {
    if parts == [] then "" else parts[0] + Join(parts[1..])
  }

  predicate AllRead(pages: seq<Option<string>>) {
    forall i :: 0 <= i < |pages| ==> pages[i].Some?
  }

  /** The extracted text of each page (a failed page contributes nothing). */
  function Texts(pages: seq<Option<string>>): (texts: seq<string>)
    ensures |texts| == |pages|
    ensures forall i :: 0 <= i < |pages| && pages[i].Some? ==> texts[i] == pages[i].value
  {
    seq(|pages|, i requires 0 <= i < |pages| => if pages[i].Some? then pages[i].value else "")
  }

  /** What `extract_text_from_pdf` returns for `pdf`: the concatenation of
      all page texts when the file opens and every page reads, and otherwise
      nothing; there is never a partial text. */
  function Extracted(pdf: Pdf): (text: Option<string>)
    ensures pdf.Unreadable? ==> text == None
    ensures pdf.Pages? && (exists i :: 0 <= i < |pdf.pages| && pdf.pages[i] == None) ==> text == None
  {
    if pdf.Pages? && AllRead(pdf.pages) then Some(Join(Texts(pdf.pages))) else None
  }

  lemma {:induction false} JoinAppend(parts: seq<string>, last: string)
    ensures Join(parts + [last]) == Join(parts) + last
  {
    if parts == [] {
      assert [] + [last] == [last];
    } else {
      assert (parts + [last])[1..] == parts[1..] + [last];
      JoinAppend(parts[1..], last);
    }
  }

  /** Joining two runs of pages is joining each and concatenating. */
  lemma {:induction false} JoinConcat(a: seq<string>, b: seq<string>)
    ensures Join(a + b) == Join(a) + Join(b)
  {
    if a == [] {
      assert [] + b == b;
    } else {
      assert (a + b)[1..] == a[1..] + b;
      JoinConcat(a[1..], b);
    }
  }

  /** Page `k`'s text stands in the joined text right after the text of the
      pages before it: order is kept and nothing is put between pages. */
  lemma JoinAt(parts: seq<string>, k: nat)
    requires k < |parts|
    ensures var before := |Join(parts[..k])|;
      before + |parts[k]| <= |Join(parts)|
      && Join(parts)[before..before + |parts[k]|] == parts[k]
  {
    assert parts == parts[..k] + ([parts[k]] + parts[k + 1..]);
    JoinConcat(parts[..k], [parts[k]] + parts[k + 1..]);
    JoinConcat([parts[k]], parts[k + 1..]);
    assert Join([parts[k]]) == parts[k] + Join([]);
  }

  /** The joined text is empty exactly when every page's text is empty. */
  lemma {:induction false} JoinEmpty(parts: seq<string>)
    ensures Join(parts) == "" <==> forall i :: 0 <= i < |parts| ==> parts[i] == ""
  {
    if parts != [] {
      JoinEmpty(parts[1..]);
      assert forall i :: 1 <= i < |parts| ==> parts[i] == parts[1..][i - 1];
    }
  }

  /** `extract_text_from_pdf`. The loop appends each page's text to the
      accumulator; a page that raises ends the call with no text, and the
      error is reported to the user. */
  method ExtractText(pdf: Pdf) returns (text: Option<string>, errorReported: bool)
    ensures text == Extracted(pdf)
    ensures errorReported <==> text == None
  {
    if pdf.Unreadable? {
      return None, true;
    }
    var pages := pdf.pages;
    var acc := "";
    for i := 0 to |pages|
      invariant AllRead(pages[..i])
      invariant acc == Join(Texts(pages)[..i])
    {
      if pages[i].None? {
        return None, true;
      }
      assert Texts(pages)[..i + 1] == Texts(pages)[..i] + [pages[i].value];
      JoinAppend(Texts(pages)[..i], pages[i].value);
      acc := acc + pages[i].value;
    }
    assert pages[..|pages|] == pages;
    assert Texts(pages)[..|pages|] == Texts(pages);
    return Some(acc), false;
  }

  /** A document with no pages, or whose pages all read as empty, extracts to
      the empty string. */
  lemma ExtractedEmpty(pdf: Pdf)
    requires pdf.Pages?
    ensures Extracted(pdf) == Some("") <==> forall i :: 0 <= i < |pdf.pages| ==> pdf.pages[i] == Some("")
  {
    var texts := Texts(pdf.pages);
    JoinEmpty(texts);
  }

  /** Two pages "Alice " and "Street 5" extract to "Alice Street 5". */
  lemma ExtractedTwoPages()
    ensures Extracted(Pages([Some("Alice "), Some("Street 5")])) == Some("Alice Street 5")
  {
    var pages := [Some("Alice "), Some("Street 5")];
    var texts := ["Alice ", "Street 5"];
    assert AllRead(pages);
    assert Texts(pages) == texts;
    assert texts[1..] == ["Street 5"];
    assert Join(["Street 5"]) == "Street 5";
    assert Join(texts) == "Alice " + "Street 5";
    assert "Alice " + "Street 5" == "Alice Street 5";
  }
}
