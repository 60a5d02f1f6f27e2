/** The build-time directory generator (generate-directory.js) with its file
    reads and writes taken away: the parsed exclusion list, the names found in
    the scanned folder and the template text are parameters, and the page text
    that the script would write is the result. */
module DirectoryGenerator {
  import opened Text
  import opened Sequences

  /** The marker in the template that the generated list replaces. */
  const Placeholder: string := "<!-- DIRECTORY_LIST_PLACEHOLDER -->"

  /** The home page, kept out of the sorted list and linked first. */
  const IndexFile: string := "index.html"

  const HtmlSuffix: string := ".html"

  /** The label of the home page, in the list header and in the table of
      custom labels. */
  const HomeLabel: string := "Home"

  /** A newline followed by twelve spaces: what stands between list lines. */
  const LineBreak: string := "\n            "

  /** The home entry and the separator exactly as they open every list. */
  const HomeHeader: string := "<li><a href=\"/index.html\">" + HomeLabel + "</a></li>" + LineBreak + "<hr>" + LineBreak

  lemma HomeHeaderAvoidsDollar()
    ensures '$' !in HomeHeader
  {
  }

  /** The table of custom labels: a single override, for the home page. */
  function CustomLabel(filename: string): (r: Option<string>)
    ensures r.Some? <==> filename == IndexFile
    ensures r.Some? ==> r.value == HomeLabel
  {
    if filename == IndexFile then Some(HomeLabel) else None
  }

  /** The name ends in `.html` with its letters in any case. */
  predicate HasHtmlSuffixIgnoringCase(name: string)
  {
    |name| >= 5 && Lower(name[|name| - 5..]) == HtmlSuffix
  }

  /** The name without one trailing `.html` in any letter case. */
  function StripHtmlSuffix(name: string): (r: string)
    ensures StartsWith(name, r)
    ensures |r| == if HasHtmlSuffixIgnoringCase(name) then |name| - 5 else |name|
  {
    if HasHtmlSuffixIgnoringCase(name) then name[..|name| - 5] else name
  }

  /** The label shown for a file: the override when there is one, otherwise the
      name without its `.html` suffix and with its first character upper-cased;
      an empty stem gives an empty label. */
  function FormatFilename(filename: string): (r: string)
    ensures CustomLabel(filename).Some? ==> r == CustomLabel(filename).value
    ensures filename == IndexFile ==> r == HomeLabel
    ensures CustomLabel(filename).None? ==>
              |r| == (if HasHtmlSuffixIgnoringCase(filename) then |filename| - 5 else |filename|)
    ensures CustomLabel(filename).None? && |r| > 0 ==>
              r[0] == UpperChar(filename[0]) && r[1..] == filename[1..|r|]
  {
    match CustomLabel(filename)
    case Some(customLabel) => customLabel
    case None =>
      var nameWithoutExtension := StripHtmlSuffix(filename);
      if |nameWithoutExtension| > 0 then
        [UpperChar(nameWithoutExtension[0])] + nameWithoutExtension[1..]
      else
        ""
  }

  /** A page name is its stem followed by `.html` in any letter case: its
      label is the stem with the first character upper-cased. */
  lemma LabelOfHtmlName(stem: string, suffix: string)
    requires |suffix| == 5 && Lower(suffix) == HtmlSuffix
    requires stem + suffix != IndexFile
    ensures FormatFilename(stem + suffix) == if stem == [] then [] else [UpperChar(stem[0])] + stem[1..]
  {
    var name := stem + suffix;
    assert name[|name| - 5..] == suffix;
    assert name[..|name| - 5] == stem;
  }

  /** A file named just `.html` gets an empty label. */
  lemma LabelOfBareSuffix()
    ensures FormatFilename(".html") == ""
  {
    assert HasHtmlSuffixIgnoringCase(".html") by {
      assert Lower(".html") == HtmlSuffix;
    }
    assert |FormatFilename(".html")| == 0;
  }

  /** Only the exact name `index.html` is overridden: `Index.html` is labelled
      like any other page. */
  lemma LabelOfCapitalIndex()
    ensures FormatFilename("Index.html") == "Index"
  {
    assert "Index.html" == "Index" + ".html";
    LabelOfHtmlName("Index", ".html");
  }

  /** The suffix is removed whatever its letter case. */
  lemma LabelOfUpperCaseSuffix()
    ensures FormatFilename("notes.HTML") == "Notes"
  {
    assert "notes.HTML" == "notes" + ".HTML";
    assert Lower(".HTML") == ".html";
    LabelOfHtmlName("notes", ".HTML");
  }

  /** A label holds a `$` only if its file name does. */
  lemma LabelAvoidsDollar(filename: string)
    requires '$' !in filename
    ensures '$' !in FormatFilename(filename)
  {
    var r := FormatFilename(filename);
    if CustomLabel(filename).None? && |r| > 0 {
      assert filename[0] in filename;
      assert r == [r[0]] + filename[1..|r|];
    }
  }

  /** The exclusion list as the script keeps it: every entry lower-cased. */
  function LowerAll(names: seq<string>): (r: seq<string>)
    ensures |r| == |names|
    ensures forall i :: 0 <= i < |names| ==> r[i] == Lower(names[i])
  {
    seq(|names|, i requires 0 <= i < |names| => Lower(names[i]))
  }

  /** `file` equals some exclusion entry when letter case is ignored. */
  predicate Excluded(file: string, exclusions: seq<string>)
  {
    exists e :: e in exclusions && Lower(e) == Lower(file)
  }

  /** Looking up the lower-cased name among the lower-cased entries is a
      case-insensitive comparison against the entries as written. */
  lemma ExcludedPagesMatch(file: string, exclusions: seq<string>)
    ensures Lower(file) in LowerAll(exclusions) <==> Excluded(file, exclusions)
  {
    var excludedPages := LowerAll(exclusions);
    if Lower(file) in excludedPages {
      var i :| 0 <= i < |excludedPages| && excludedPages[i] == Lower(file);
      assert exclusions[i] in exclusions;
    }
    if Excluded(file, exclusions) {
      var e :| e in exclusions && Lower(e) == Lower(file);
      var i :| 0 <= i < |exclusions| && exclusions[i] == e;
      assert excludedPages[i] == Lower(file);
    }
  }

  /** The scanned names that end in `.html` (letter case counts here) and whose
      lower-cased form is not among the lower-cased exclusions. */
  function HtmlFiles(excludedPages: seq<string>, files: seq<string>): (r: seq<string>)
    ensures forall f :: multiset(r)[f] ==
              if EndsWith(f, HtmlSuffix) && Lower(f) !in excludedPages then multiset(files)[f] else 0
  {
    Filter(Filter(files, f => EndsWith(f, HtmlSuffix)), f => Lower(f) !in excludedPages)
  }

  /** The kept names other than the exact name `index.html`, sorted. */
  function OtherFiles(excludedPages: seq<string>, files: seq<string>): (r: seq<string>)
    ensures Sorted(r)
    ensures forall f :: multiset(r)[f] ==
              if EndsWith(f, HtmlSuffix) && Lower(f) !in excludedPages && f != IndexFile
              then multiset(files)[f] else 0
  {
    var htmlFiles := HtmlFiles(excludedPages, files);
    Sort(Filter(htmlFiles, f => f != IndexFile))
  }

  /** A name is listed after the separator exactly when it was scanned, ends in
      `.html`, matches no exclusion entry in any letter case, and is not
      `index.html` itself (so `Index.html` is listed). */
  lemma OtherFilesMembership(exclusions: seq<string>, files: seq<string>, f: string)
    ensures f in OtherFiles(LowerAll(exclusions), files) <==>
              f in files && EndsWith(f, HtmlSuffix) && !Excluded(f, exclusions) && f != IndexFile
  {
    var r := OtherFiles(LowerAll(exclusions), files);
    ExcludedPagesMatch(f, exclusions);
    assert f in r <==> multiset(r)[f] > 0;
    assert f in files <==> multiset(files)[f] > 0;
  }

  /** Two different listed names appear in comparison order, and only so. */
  lemma OtherFilesOrder(excludedPages: seq<string>, files: seq<string>, i: nat, j: nat)
    requires i < |OtherFiles(excludedPages, files)| && j < |OtherFiles(excludedPages, files)|
    requires OtherFiles(excludedPages, files)[i] != OtherFiles(excludedPages, files)[j]
    ensures i < j <==> LexLessEq(OtherFiles(excludedPages, files)[i], OtherFiles(excludedPages, files)[j])
  {
    var r := OtherFiles(excludedPages, files);
    if j < i && LexLessEq(r[i], r[j]) {
      LexAntisymmetric(r[i], r[j]);
    }
  }

  /** The link line for one page in the scanned folder. */
  function ListItem(file: string): string
  {
    "<li><a href=\"/pages/" + file + "\">" + FormatFilename(file) + "</a></li>"
  }

  function ListItems(files: seq<string>): (r: seq<string>)
    ensures |r| == |files|
    ensures forall i :: 0 <= i < |files| ==> r[i] == ListItem(files[i])
  {
    seq(|files|, i requires 0 <= i < |files| => ListItem(files[i]))
  }

  /** The home link, always to `/index.html` with the home label, then the
      `<hr>` separator. */
  function ListHeader(): (r: string)
    ensures r == HomeHeader
  {
    "<li><a href=\"/index.html\">" + FormatFilename(IndexFile) + "</a></li>" + LineBreak + "<hr>" + LineBreak
  }

  /** The link lines of the other files, one per file in the given order,
      joined by line breaks. */
  function ListBody(otherFiles: seq<string>): string
  {
    Join(ListItems(otherFiles), LineBreak)
  }

  /** The rendered list: the home entry and separator, then the link lines of
      the other files. */
  function DirectoryList(otherFiles: seq<string>): (r: string)
    ensures StartsWith(r, HomeHeader)
    ensures r[|HomeHeader|..] == ListBody(otherFiles)
    ensures otherFiles == [] ==> r == HomeHeader
  {
    ListHeader() + ListBody(otherFiles)
  }

  /** Every other file contributes its link line (`ListItems` holds the line
      for each file, in order) at the position that the lines before it and
      their line breaks leave for it. */
  lemma ListEntryAt(otherFiles: seq<string>, i: nat)
    requires i < |otherFiles|
    ensures var line := ListItems(otherFiles)[i];
            var start := Offset(ListItems(otherFiles), LineBreak, i);
            start + |line| <= |ListBody(otherFiles)| &&
            ListBody(otherFiles)[start..start + |line|] == line
  {
    JoinAt(ListItems(otherFiles), LineBreak, i);
  }

  /** After each link line comes exactly one line break and then the next
      file's line; nothing follows the last line. */
  lemma ListEntryFollowers(otherFiles: seq<string>, i: nat)
    requires i < |otherFiles|
    ensures var items := ListItems(otherFiles);
            i + 1 < |otherFiles| ==>
              Offset(items, LineBreak, i + 1) == Offset(items, LineBreak, i) + |items[i]| + |LineBreak| &&
              Offset(items, LineBreak, i + 1) <= |ListBody(otherFiles)| &&
              ListBody(otherFiles)[Offset(items, LineBreak, i) + |items[i]|..Offset(items, LineBreak, i + 1)] == LineBreak
    ensures var items := ListItems(otherFiles);
            i + 1 == |otherFiles| ==> |ListBody(otherFiles)| == Offset(items, LineBreak, i) + |items[i]|
  {
    var items := ListItems(otherFiles);
    if i + 1 < |otherFiles| {
      JoinSeparatorAt(items, LineBreak, i);
    } else {
      JoinLength(items, LineBreak);
    }
  }

  /** A name without `$` gives a link line without `$`. */
  lemma ListItemAvoidsDollar(file: string)
    requires '$' !in file
    ensures '$' !in ListItem(file)
  {
    var opening := "<li><a href=\"/pages/";
    var middle := "\">";
    var closing := "</a></li>";
    assert '$' !in opening && '$' !in middle && '$' !in closing;
    LabelAvoidsDollar(file);
    ConcatAvoids(opening, file, '$');
    ConcatAvoids(opening + file, middle, '$');
    ConcatAvoids(opening + file + middle, FormatFilename(file), '$');
    ConcatAvoids(opening + file + middle + FormatFilename(file), closing, '$');
  }

  /** With no `$` in any listed name there is none in the rendered list. */
  lemma ListAvoidsDollar(otherFiles: seq<string>)
    requires forall i :: 0 <= i < |otherFiles| ==> '$' !in otherFiles[i]
    ensures '$' !in DirectoryList(otherFiles)
  {
    var items := ListItems(otherFiles);
    forall i | 0 <= i < |items| ensures '$' !in items[i] {
      ListItemAvoidsDollar(otherFiles[i]);
    }
    JoinAvoids(items, LineBreak, '$');
    HomeHeaderAvoidsDollar();
  }

  /** The page the script writes: the template with the list in place of the
      first placeholder. */
  function DirectoryPage(exclusions: seq<string>, files: seq<string>, template: string): string
  {
    Replace(template, Placeholder, DirectoryList(OtherFiles(LowerAll(exclusions), files)))
  }

  /** The page keeps the template around the first placeholder, and the home
      entry with its separator comes first where the placeholder was, whatever
      the exclusions and the scanned names are. Without a placeholder the page
      is the template. */
  lemma PageLayout(exclusions: seq<string>, files: seq<string>, template: string)
    ensures IndexOf(template, Placeholder).None? ==> DirectoryPage(exclusions, files, template) == template
    ensures IndexOf(template, Placeholder).Some? ==>
              var i := IndexOf(template, Placeholder).value;
              var page := DirectoryPage(exclusions, files, template);
              StartsWith(page, template[..i]) &&
              EndsWith(page, template[i + |Placeholder|..]) &&
              StartsWith(page[i..], HomeHeader)
  {
    match IndexOf(template, Placeholder)
    case None =>
    case Some(i) =>
      HomeHeaderAvoidsDollar();
      ReplaceKeepsLiteralHead(template, Placeholder, DirectoryList(OtherFiles(LowerAll(exclusions), files)), HomeHeader);
  }

  /** When no scanned name contains `$`, the list goes into the page verbatim. */
  lemma PageLiteral(exclusions: seq<string>, files: seq<string>, template: string)
    requires forall f :: f in files ==> '$' !in f
    ensures IndexOf(template, Placeholder).Some? ==>
              var i := IndexOf(template, Placeholder).value;
              DirectoryPage(exclusions, files, template) ==
                template[..i] + DirectoryList(OtherFiles(LowerAll(exclusions), files)) + template[i + |Placeholder|..]
  {
    var others := OtherFiles(LowerAll(exclusions), files);
    forall k | 0 <= k < |others| ensures '$' !in others[k] {
      OtherFilesMembership(exclusions, files, others[k]);
    }
    ListAvoidsDollar(others);
  }

  /** The script's main sequence: lower-case the exclusions, filter and sort the
      scanned names, build the list text step by step, and substitute it into
      the template. */
  method GenerateDirectory(exclusions: seq<string>, files: seq<string>, templateContent: string)
    returns (finalHtml: string)
    ensures finalHtml == DirectoryPage(exclusions, files, templateContent)
    ensures IndexOf(templateContent, Placeholder).None? ==> finalHtml == templateContent
    ensures IndexOf(templateContent, Placeholder).Some? ==>
              var i := IndexOf(templateContent, Placeholder).value;
              StartsWith(finalHtml, templateContent[..i]) &&
              EndsWith(finalHtml, templateContent[i + |Placeholder|..]) &&
              StartsWith(finalHtml[i..], HomeHeader)
  {
    var excludedPages := LowerAll(exclusions);
    var otherFiles := OtherFiles(excludedPages, files);

    var listItems := "";
    EmptyConcat(ListHeader());
    listItems := listItems + ListHeader();
    listItems := listItems + Join(ListItems(otherFiles), LineBreak);

    finalHtml := Replace(templateContent, Placeholder, listItems);
    PageLayout(exclusions, files, templateContent);
  }
}
