# Directory generator and navigation marking, modelled in Dafny

The site has two small scripts at its core:

- `generate-directory.js` builds the page directory at build time:
  - it reads an exclusion list and the names in the `pages` folder;
  - it keeps the `.html` names that are not excluded (ignoring letter case);
  - it sets the exact name `index.html` aside and sorts the rest;
  - it renders one `<li>` link per page, always headed by a Home link to
    `/index.html` and an `<hr>` separator, with lines joined by a newline
    and twelve spaces;
  - it puts that list in place of the first
    `<!-- DIRECTORY_LIST_PLACEHOLDER -->` in a template.
- `nav.js` runs in the browser once the navigation fragment is inserted:
  - it takes the current page from the last segment of the location path,
    with `index.html` for an empty segment;
  - it normalises every navigation href and the page name by removing a
    leading `/p/` and then one leading `/`;
  - it adds the `nav_active` class to every link whose normalised href
    equals the normalised page.

The model has four modules:

- `Text` holds the string primitives the scripts use:
  - ASCII `toUpperCase`/`toLowerCase`;
  - `endsWith`, and the prefix tests that the anchored patterns `^/p/` and
    `^/` of `nav.js` make;
  - `indexOf`;
  - `String.prototype.replace` with a string pattern, including the
    `$$`, `$&`, `` $` `` and `$'` patterns of its replacement text;
  - the string order used for sorting.
- `Sequences` holds `filter`, `join` and `sort` on lists of names.
- `DirectoryGenerator` holds the label formatting, the filter/partition/sort
  chain, the list rendering and the substitution into the template. The
  script's main sequence is the method `GenerateDirectory`. It is proved
  against the function `DirectoryPage`, and the layout lemmas are stated
  about that function.
- `Nav` holds the page-name extraction, the normalisation and the marking
  loop. In the loop, the links are their href strings, and whether each
  link has `nav_active` is a flag in an array beside them.

## Model

| member | source | states |
|---|---|---|
| Text.UpperChar | generate-directory.js:34 | upper-casing changes only ASCII lower-case letters, each to the letter 32 code points below; the result is never a lower-case letter |
| Text.LowerChar | generate-directory.js:46 | lower-casing one character changes only ASCII upper-case letters, each to the letter 32 code points above; the result is never an upper-case letter |
| Text.Lower | generate-directory.js:46 | `toLowerCase` keeps the length and lower-cases each character |
| Text.IndexOf | generate-directory.js:81 | finds the first occurrence of the placeholder: it occurs there and at no earlier index; `None` means it occurs nowhere |
| Text.Substitution | generate-directory.js:81 | replacement text without `$` is inserted unchanged |
| Text.SubstitutionLiteralPrefix | generate-directory.js:81 | a `$`-free opening part of the replacement text is inserted verbatim, whatever follows it |
| Text.Replace | generate-directory.js:81 | without an occurrence the text is returned unchanged; otherwise the text before and after the first occurrence is kept, and a `$`-free replacement stands exactly in its place |
| Text.ReplaceKeepsLiteralHead | generate-directory.js:81 | at the index of the first occurrence, the result begins with the `$`-free opening part of the replacement |
| Text.LexLessEq | generate-directory.js:62 | stands in for `a.localeCompare(b) <= 0`: lexicographic order by character code, a total order by `LexReflexive`, `LexTotal`, `LexAntisymmetric` and `LexTransitive` |
| Text.LexReflexive | generate-directory.js:62 | the comparison used for sorting puts every name at or below itself |
| Text.LexTotal | generate-directory.js:62 | any two names are comparable |
| Text.LexAntisymmetric | generate-directory.js:62 | names that compare both ways are equal |
| Text.LexTransitive | generate-directory.js:62 | the comparison is transitive |
| Sequences.Filter | generate-directory.js:56-58 | `filter` keeps exactly the elements that pass, each as often as in the input, and never lengthens the list |
| Sequences.Join | generate-directory.js:74 | `items.join(sep)`: empty for no items, otherwise the items with one separator between neighbours. The contract states the empty and one-item cases; for a non-empty list, `JoinAt`, `JoinSeparatorAt` and `JoinLength` fix every position |
| Sequences.JoinAt | generate-directory.js:70-74 | in `join`, every item stands at its offset, which is the lengths of the items before it plus one separator each |
| Sequences.JoinSeparatorAt | generate-directory.js:70-74 | exactly one separator stands between neighbouring items |
| Sequences.JoinLength | generate-directory.js:70-74 | the joined text ends where the last item ends |
| Sequences.JoinAvoids | generate-directory.js:70-74 | a character found in no item and not in the separator is not in the joined text |
| Sequences.Insert | generate-directory.js:62 | inserting into a sorted list keeps it sorted and adds exactly that one name |
| Sequences.Sort | generate-directory.js:62 | `sort` returns a sorted permutation of its input |
| Sequences.SortedUnique | generate-directory.js:62 | two sorted permutations of the same names are equal, so the sorted list does not depend on the sorting algorithm |
| DirectoryGenerator.CustomLabel | generate-directory.js:23-30 | the table of custom labels yields a label exactly for `index.html`, and that label is `Home` |
| DirectoryGenerator.StripHtmlSuffix | generate-directory.js:32 | the result is a prefix of the name, five characters shorter exactly when the name ends in `.html` in any letter case |
| DirectoryGenerator.FormatFilename | generate-directory.js:28-37 | `index.html` is labelled `Home`; any other name loses a trailing `.html` (any case), and its first character is upper-cased with the rest kept |
| DirectoryGenerator.LabelOfHtmlName | generate-directory.js:32-36 | for a stem followed by `.html` in any case, the label is the stem with the first character upper-cased, or empty for an empty stem |
| DirectoryGenerator.LabelOfBareSuffix | generate-directory.js:33-36 | `.html` alone gets the empty label |
| DirectoryGenerator.LabelOfCapitalIndex | generate-directory.js:23-30 | only the exact name `index.html` is overridden: `Index.html` is labelled `Index` |
| DirectoryGenerator.LabelOfUpperCaseSuffix | generate-directory.js:32 | the suffix is removed in any letter case: `notes.HTML` is labelled `Notes` |
| DirectoryGenerator.LabelAvoidsDollar | generate-directory.js:28-37 | a label contains `$` only if its file name does |
| DirectoryGenerator.LowerAll | generate-directory.js:46 | the kept exclusion list has one lower-cased entry per entry read |
| DirectoryGenerator.ExcludedPagesMatch | generate-directory.js:58 | a lower-cased name is among the lower-cased entries exactly when it equals some entry ignoring case |
| DirectoryGenerator.HtmlFiles | generate-directory.js:56-58 | the kept names are exactly the scanned names ending in `.html` (case-sensitive) whose lower-cased form is not excluded, with their multiplicities |
| DirectoryGenerator.OtherFiles | generate-directory.js:61-62 | the listed names are sorted, and are a permutation of the kept names other than `index.html` |
| DirectoryGenerator.OtherFilesMembership | generate-directory.js:56-62 | a name is listed exactly when it was scanned, ends in `.html`, matches no exclusion in any case, and is not exactly `index.html` |
| DirectoryGenerator.OtherFilesOrder | generate-directory.js:62 | of two different listed names, the first is the one that compares lower, and only that one |
| DirectoryGenerator.ListItem | generate-directory.js:73 | the link line `<li><a href="/pages/FILE">LABEL</a></li>` for one file, with the label of `FormatFilename` |
| DirectoryGenerator.ListItems | generate-directory.js:70-73 | one link line per listed file, in the same order |
| DirectoryGenerator.ListHeader | generate-directory.js:68 | the list opens with a link to `/index.html` labelled `Home`, a line break, `<hr>` and a line break |
| DirectoryGenerator.ListBody | generate-directory.js:70-74 | the link lines of the listed files joined by newline-and-twelve-spaces; each line's place and what follows it are stated by `ListEntryAt` and `ListEntryFollowers` |
| DirectoryGenerator.DirectoryList | generate-directory.js:65-74 | the rendered list always begins with the Home entry and separator, then the joined link lines; with no other pages it is just that header |
| DirectoryGenerator.ListEntryAt | generate-directory.js:70-74 | each listed file's link line appears in the list body at its offset |
| DirectoryGenerator.ListEntryFollowers | generate-directory.js:70-74 | after each link line comes exactly one newline-and-twelve-spaces, then the next line; the body ends with the last line |
| DirectoryGenerator.ListItemAvoidsDollar | generate-directory.js:73 | a link line contains `$` only if its file name does |
| DirectoryGenerator.ListAvoidsDollar | generate-directory.js:65-74 | with no `$` in the listed names, the rendered list has no `$` |
| DirectoryGenerator.HomeHeaderAvoidsDollar | generate-directory.js:68 | the Home header contains no `$` |
| DirectoryGenerator.DirectoryPage | generate-directory.js:46-81 | the written page: the template with `DirectoryList(OtherFiles(LowerAll(exclusions), files))` put by `Replace` in place of the first placeholder; its layout is stated by `PageLayout` and `PageLiteral` |
| DirectoryGenerator.PageLayout | generate-directory.js:81 | without a placeholder the page is the template; otherwise the template around the first placeholder is kept, and the Home entry with its separator begins where the placeholder was |
| DirectoryGenerator.PageLiteral | generate-directory.js:81 | when no scanned name contains `$`, the list is inserted verbatim in place of the first placeholder |
| DirectoryGenerator.GenerateDirectory | generate-directory.js:46-81 | the written page is `DirectoryPage` of the inputs, with the layout of `PageLayout` |
| Nav.LastSegment | nav.js:12 | the last `/`-separated segment: contains no `/`, ends the path, and is preceded by `/` unless it is the whole path |
| Nav.LastSegmentAfterSlash | nav.js:12 | for a path `dir/name` with no `/` in `name`, the last segment is `name` |
| Nav.CurrentPage | nav.js:12 | the current page is never empty and holds no `/`; it is `index.html` when the path is empty or ends in `/`, and otherwise the final segment of the path |
| Nav.Normalize | nav.js:20-21 | normalisation shortens an href by at most four characters |
| Nav.NormalizeSteps | nav.js:20-21 | the two steps spelled out: a leading `/p//` loses four characters, any other leading `/p/` three, any other leading `/` one, and an href with none of these is unchanged |
| Nav.NormalizeSuffix | nav.js:20-21 | the normal form is a suffix of the href, and a name with no `/` is its own normal form |
| Nav.NormalizeCases | nav.js:20-21 | every href is its normal form behind nothing, `/`, `/p/` or `/p//` |
| Nav.NormalizeSpellings | nav.js:20-21 | a name with no `/` normalises to itself behind nothing, `/`, `/p/` and `/p//` |
| Nav.NormalizeMatches | nav.js:20-23 | an href normalises to a `/`-free name exactly when it is that name behind nothing, `/`, `/p/` or `/p//` |
| Nav.IsActive | nav.js:20-23 | a link is active when the normal forms of its href and of the current page are equal; `ActiveLinkSpellings` lists the hrefs this admits |
| Nav.ActiveLinkSpellings | nav.js:12-24 | the current page is its own normal form, and a link is active exactly when its href is the page name behind nothing, `/`, `/p/` or `/p//` |
| Nav.AboutPageName | nav.js:12 | on `/pages/about.html` the current page is `about.html` |
| Nav.PrefixedLinkActive | nav.js:12-24 | on a page served at `dir/name` with a non-empty `/`-free `name` (as `/pages/about.html`), the current page is `name`, and the link `/p/name` (as `/p/about.html`) is active |
| Nav.MarkActiveLinks | nav.js:16-26 | after the loop, each link has `nav_active` exactly when it had it before or its normalised href equals the normalised current page; no class is removed and nothing else changes |

## Left out

- File system access is left out. Reading the exclusion list, the template and the folder listing, and writing the page, are replaced by parameters and the result.
- The exclusion list is taken as already parsed into a list of names. `JSON.parse`, its `SyntaxError`, a non-array or non-string entry, and the error reporting in the `catch` branch are not modelled.
- All console output is left out.
- `fetch`, inserting the navigation fragment, and `querySelectorAll` are left out: the links are given as their hrefs. A link without an `href` attribute, which makes the script throw, is not modelled.
- Text.LexLessEq: orders by character code and stands in for `localeCompare`, whose locale order is not modelled. The model also assumes that no two distinct names compare equal. `localeCompare` returns 0 for some distinct names, such as canonically equivalent spellings (`e` followed by a combining acute accent, and `é`). For those, the stable `sort` keeps the order of the folder listing, so the list would also depend on that order, which the model does not capture.
- Text.UpperChar: maps only ASCII letters; full Unicode case mapping is not modelled. This includes mappings that change the length (such as `ß` to `SS`).
- Text.LowerChar, Text.Lower: map only ASCII letters. Full Unicode lower-casing is not modelled (`Ä` stays `Ä`), and neither are mappings that change the length, such as `İ`, which becomes two code units.
- Strings are sequences of Unicode characters, while JavaScript indexes UTF-16 code units. `charAt(0)` and `slice(1)` on a name that starts outside the Basic Multilingual Plane are not modelled.
- DirectoryGenerator.CustomLabel: only the own key `index.html` is modelled. Keys inherited from `Object.prototype` (for example `constructor`) would also be found by the source's object lookup. The script only asks for names ending in `.html`, so it never meets them.
- Text.Substitution: its contract covers only replacement text without `$`, which is the case the page relies on (see `DirectoryGenerator.PageLiteral`). The four `$` patterns are defined as `replace` expands them, but no property about them is proved.
