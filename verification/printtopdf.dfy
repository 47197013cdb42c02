/** The batch exporter's own logic: how `process_link` derives the two
    output paths for a link (the save-as path handed to `page.pdf`, and the
    print-dialog path that is only logged), and how `load_links_from_json` checks the
    decoded links document. Browser automation, `urlparse` and file I/O are
    outside the model; the parsed URL and the decoded JSON are inputs. */
module PrintToPdf {
  import opened Text
  import opened Json
  import opened Wrappers

  const PdfExtension: string := ".pdf"
  /** Appended to the base name for the file Playwright's `page.pdf` writes. */
  const SaveAsPdfSuffix: string := "_save_as_pdf.pdf"
  /** Appended to the base name for the print-dialog path; the simulated
      key presses never receive it, so it only appears in a log message. */
  const PrintToPdfSuffix: string := "_microsoft_print_to_pdf.pdf"
  const LinksKey: string := "links"
  const LinksErrorMessage: string := "JSON must contain a 'links' key with a list of URLs."

  /** The six fields `urllib.parse.urlparse` splits a link into; parsing
      itself is not modelled. */
  datatype ParsedUrl = ParsedUrl(
    scheme: string, netloc: string, path: string,
    params: string, query: string, fragment: string)

  /** The save-as path `process_link` hands to `page.pdf`, and the
      print-dialog path it only logs. */
  datatype OutputFiles = OutputFiles(saveAsPdf: string, printToPdf: string)

  /** The exception `load_links_from_json` raises. */
  datatype LoadError = ValueError(message: string)

  /** The URL path with outer slashes stripped and inner ones turned into '_'. */
  function Stem(path: string): (r: string)
    ensures '/' !in r
    ensures |r| == |Strip(path)|
    ensures forall i :: 0 <= i < |r| ==>
              if Strip(path)[i] == '/' then r[i] == '_' else r[i] == Strip(path)[i]
  {
    ReplaceSlashes(Strip(path))
  }

  /** The name both output files start from: the URL path stripped of
      outer '/', inner '/' turned into '_', then ".pdf". */
  function BaseName(path: string): (r: string)
    ensures '/' !in r
    ensures |r| == |Strip(path)| + |PdfExtension|
    ensures r[..|Strip(path)|] == Stem(path)
    ensures r[|r| - |PdfExtension|..] == PdfExtension
    ensures r == PdfExtension <==> AllSlashes(path)
  {
    StripEmptyIff(path);
    Stem(path) + PdfExtension
  }

  /** The two output paths: each is the base name plus a fixed suffix,
      joined onto the output directory. */
  function OutputPaths(path: string, outputDir: string): (o: OutputFiles)
    ensures o.saveAsPdf == DirPrefix(outputDir) + (BaseName(path) + SaveAsPdfSuffix)
    ensures o.printToPdf == DirPrefix(outputDir) + (BaseName(path) + PrintToPdfSuffix)
    ensures LastSegment(o.saveAsPdf) == BaseName(path) + SaveAsPdfSuffix
    ensures LastSegment(o.printToPdf) == BaseName(path) + PrintToPdfSuffix
    ensures o.saveAsPdf != o.printToPdf
  {
    var base := BaseName(path);
    assert |base| > 0 && '/' !in base;
    SuffixesAreSlashFree();
    JoinedFileName(outputDir, base, SaveAsPdfSuffix);
    JoinedFileName(outputDir, base, PrintToPdfSuffix);
    var save := Join(outputDir, base + SaveAsPdfSuffix);
    var printed := Join(outputDir, base + PrintToPdfSuffix);
    assert |save| != |printed|;
    OutputFiles(save, printed)
  }

  /** Neither suffix contains a directory separator. */
  lemma SuffixesAreSlashFree()
    ensures '/' !in SaveAsPdfSuffix && '/' !in PrintToPdfSuffix
  {
  }

  /** A slash-free base plus suffix lands directly inside the directory. */
  lemma JoinedFileName(dir: string, base: string, suffix: string)
    requires |base| > 0 && '/' !in base && '/' !in suffix
    ensures Join(dir, base + suffix) == DirPrefix(dir) + (base + suffix)
    ensures LastSegment(Join(dir, base + suffix)) == base + suffix
  {
    var name := base + suffix;
    assert name[0] == base[0];
    JoinThenLastSegment(dir, name);
  }

  /** The naming part of processing one link: only the
      path of the parsed link is consulted. */
  function OutputPathsForUrl(url: ParsedUrl, outputDir: string): (o: OutputFiles)
    ensures o.saveAsPdf == DirPrefix(outputDir) + (BaseName(url.path) + SaveAsPdfSuffix)
    ensures o.printToPdf == DirPrefix(outputDir) + (BaseName(url.path) + PrintToPdfSuffix)
  {
    OutputPaths(url.path, outputDir)
  }

  /** Links that differ in scheme, host, query or fragment but share a path
      get the same two output paths. */
  lemma SamePathSameOutputs(u: ParsedUrl, v: ParsedUrl, outputDir: string)
    requires u.path == v.path
    ensures OutputPathsForUrl(u, outputDir) == OutputPathsForUrl(v, outputDir)
  {
  }

  /** Leading and trailing slashes of the path never reach the name. */
  lemma BaseNameIgnoresOuterSlashes(path: string)
    ensures BaseName("/" + path) == BaseName(path)
    ensures BaseName(path + "/") == BaseName(path)
  {
    StripIgnoresLeadingSlash(path);
    StripIgnoresTrailingSlash(path);
  }

  /** Naming is not injective: a '/' and a '_' at the same inner position
      of two otherwise equal paths give the same name. */
  lemma SlashAndUnderscoreCollide(a: string, b: string)
    requires |a| > 0 && a[0] != '/'
    requires |b| > 0 && b[|b| - 1] != '/'
    ensures a + "/" + b != a + "_" + b
    ensures BaseName(a + "/" + b) == BaseName(a + "_" + b)
  {
    var p := a + "/" + b;
    var q := a + "_" + b;
    assert p != q by {
      assert p[|a|] != q[|a|];
    }
    assert SlashTrimmed(p) && SlashTrimmed(q) by {
      assert p[0] == a[0] && q[0] == a[0];
      assert p[|p| - 1] == b[|b| - 1] && q[|q| - 1] == b[|b| - 1];
    }
    assert Stem(p) == Stem(q) by {
      StripOfTrimmed(p);
      StripOfTrimmed(q);
      ReplaceSlashesMergesSeparators(a, b);
    }
  }

  /** Between the same prefix and suffix, two middles give the same string
      exactly when they are equal. */
  lemma FramedEqualIff(pre: string, m1: string, m2: string, suf: string)
    ensures pre + (m1 + suf) == pre + (m2 + suf) <==> m1 == m2
  {
    var x := pre + (m1 + suf);
    var y := pre + (m2 + suf);
    if x == y {
      assert |m1| == |m2|;
      forall i | 0 <= i < |m1|
        ensures m1[i] == m2[i]
      {
        assert x[|pre| + i] == m1[i];
        assert y[|pre| + i] == m2[i];
      }
    }
  }

  /** The character `k` places into the suffix of a framed string. */
  lemma FramedSuffixChar(pre: string, mid: string, suf: string, k: nat)
    requires k < |suf|
    ensures (pre + (mid + suf))[|pre| + |mid| + k] == suf[k]
  {
  }

  /** The two suffixes differ 16 characters from the end: '_' in
      "_save_as_pdf.pdf", 'p' in "_microsoft_print_to_pdf.pdf". */
  lemma SuffixesDifferFromEnd()
    ensures |SaveAsPdfSuffix| == 16 && SaveAsPdfSuffix[0] == '_'
    ensures |PrintToPdfSuffix| == 27 && PrintToPdfSuffix[11] == 'p'
  {
  }

  /** A string ending in the save-as suffix never equals one ending in the
      print-dialog suffix. */
  lemma FramedSuffixesNeverMeet(pre1: string, b1: string, pre2: string, b2: string)
    ensures pre1 + (b1 + SaveAsPdfSuffix) != pre2 + (b2 + PrintToPdfSuffix)
  {
    var x := pre1 + (b1 + SaveAsPdfSuffix);
    var y := pre2 + (b2 + PrintToPdfSuffix);
    SuffixesDifferFromEnd();
    FramedSuffixChar(pre1, b1, SaveAsPdfSuffix, 0);
    FramedSuffixChar(pre2, b2, PrintToPdfSuffix, 11);
    assert x[|x| - 16] != y[|y| - 16];
  }

  /** A save-as path never equals a print-dialog path, whatever the links
      and directories. */
  lemma OutputKindsNeverCollide(p1: string, d1: string, p2: string, d2: string)
    ensures OutputPaths(p1, d1).saveAsPdf != OutputPaths(p2, d2).printToPdf
  {
    FramedSuffixesNeverMeet(DirPrefix(d1), BaseName(p1), DirPrefix(d2), BaseName(p2));
  }

  /** Within one directory, two links get the same save-as path (so the
      second `page.pdf` overwrites the first) exactly when their base names
      agree. */
  lemma SaveAsCollidesIff(p1: string, p2: string, outputDir: string)
    ensures OutputPaths(p1, outputDir).saveAsPdf == OutputPaths(p2, outputDir).saveAsPdf
            <==> BaseName(p1) == BaseName(p2)
  {
    FramedEqualIff(DirPrefix(outputDir), BaseName(p1), BaseName(p2), SaveAsPdfSuffix);
  }

  /** Within one directory, two links get the same print-dialog path
      exactly when their base names agree. */
  lemma PrintToPdfCollidesIff(p1: string, p2: string, outputDir: string)
    ensures OutputPaths(p1, outputDir).printToPdf == OutputPaths(p2, outputDir).printToPdf
            <==> BaseName(p1) == BaseName(p2)
  {
    FramedEqualIff(DirPrefix(outputDir), BaseName(p1), BaseName(p2), PrintToPdfSuffix);
  }

  /** The base name computed the way the string methods run: scan for the
      strip bounds, then copy the middle with each '/' replaced. */
  method DeriveBaseName(path: string) returns (name: string)
    ensures name == BaseName(path)
  {
    var lo, hi := StripBounds(path);
    var stem := ReplaceSlashesScan(path[lo..hi]);
    name := stem + PdfExtension;
  }

  /** Checking the decoded links document: it must be a dict
      whose "links" entry is a list, and that list is returned as it is. */
  function LoadLinks(data: JsonValue): (r: Result<seq<JsonValue>, LoadError>)
    ensures r.Success? ==> IsDict(data) && LinksKey in data.fields
                           && data.fields[LinksKey] == JArray(r.value)
    ensures r.Failure? ==> r.error == ValueError(LinksErrorMessage)
  {
    if !IsDict(data) || LinksKey !in data.fields || !IsList(data.fields[LinksKey]) then
      Failure(ValueError(LinksErrorMessage))
    else
      Success(data.fields[LinksKey].items)
  }

  /** Every dict holding a list under "links" is accepted, whatever else it
      holds and whatever the list's elements are. */
  lemma LoadAcceptsLinksList(fields: map<string, JsonValue>, items: seq<JsonValue>)
    requires LinksKey in fields && fields[LinksKey] == JArray(items)
    ensures LoadLinks(JObject(fields)) == Success(items)
  {
  }

  /** A document that is not a dict is rejected. */
  lemma LoadRejectsNonDict(data: JsonValue)
    requires !IsDict(data)
    ensures LoadLinks(data) == Failure(ValueError(LinksErrorMessage))
  {
  }

  /** A dict without a "links" key is rejected. */
  lemma LoadRejectsMissingLinks(fields: map<string, JsonValue>)
    requires LinksKey !in fields
    ensures LoadLinks(JObject(fields)) == Failure(ValueError(LinksErrorMessage))
  {
  }

  /** A "links" entry that is not a list is rejected, even a string or a dict. */
  lemma LoadRejectsNonListLinks(fields: map<string, JsonValue>)
    requires LinksKey in fields && !IsList(fields[LinksKey])
    ensures LoadLinks(JObject(fields)) == Failure(ValueError(LinksErrorMessage))
  {
  }

  /** Keys other than "links" do not affect loading. */
  lemma LoadIgnoresOtherKeys(fields: map<string, JsonValue>, key: string, value: JsonValue)
    requires key != LinksKey
    ensures LoadLinks(JObject(fields[key := value])) == LoadLinks(JObject(fields))
  {
  }
}
