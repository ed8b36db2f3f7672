/** PageBuilder: the test-vector web page rendered from a manifest. Every
    manifest line becomes one table row; every batch description file
    (`Batch_<n>.txt`) becomes a popup holding its text and a script that
    registers the popup; the number of rows replaces `@TOTAL@`. */
module PageBuilder {
  import opened Wrappers
  import opened Strings
  import opened Manifest

  // ---------------------------------------------------------------------
  // Batch popups
  // ---------------------------------------------------------------------

  /** `file_name.replace('.txt', '').split('_')`. */
  function BatchParts(name: string): seq<string>
  {
    Split(Replace(name, ".txt", ""), '_')
  }

  /** A batch file name names a batch when it has exactly two parts; the
      batch number is the second. */
  predicate NamesBatch(name: Option<string>)
  {
    name.Some? && |BatchParts(name.value)| == 2
  }

  /** The popup id as a jQuery selector, `'#batch_pop_<n>'`, quotes included. */
  function PopupSelector(n: string): string
  {
    "'#batch_pop_" + n + "'"
  }

  const PopupIdOpen := "\n<div id =\"batch_pop_"
  const PopupIdClose := "\" class =\"well\">\n"
  const TitleOpen := "\t\t<h4> "
  const TitleClose := " </h4>'\n"
  const PreOpen := "<pre class =\"prettyprint\">\n"
  const CodeOpen := "<code>\n"
  const CodeClose := "</code>\n"
  const PreClose := "</pre>\n"
  const CloseButtonOpen := "<button onclick = \"$("
  const HideCall := ").popup('hide');"
  const CloseButtonClose := "\" class =\"fade_close btn btn-default\"> Close </button>\n"
  const DivClose := "</div>\n"

  /** The opening `<div>` of the popup of batch `n`. */
  function PopupHead(n: string): string
  {
    PopupIdOpen + n + PopupIdClose
  }

  /** The pieces `buildBatchPopup` appends, in order, for batch number `n`
      (the `'` after the title is in the template). */
  function PopupPieces(n: string, name: string, text: string): seq<string>
  {
    [ PopupHead(n), TitleOpen + name + TitleClose, PreOpen, CodeOpen + text + CodeClose,
      PreClose, CloseButtonOpen, PopupSelector(n) + HideCall, CloseButtonClose, DivClose ]
  }

  /** `buildBatchPopup`: the popup `<div>` for a batch, holding the file
      name and the batch text; `''` when there is no name or it does not
      split into two parts. */
  function BuildBatchPopup(name: Option<string>, text: string): (html: string)
    ensures html == "" <==> !NamesBatch(name)
    ensures NamesBatch(name) ==>
      var n := BatchParts(name.value)[1];
      && StartsWith(html, PopupHead(n))
      && Occurs(html, TitleOpen + name.value + TitleClose)
      && Occurs(html, CodeOpen + text + CodeClose)
      && Occurs(html, PopupSelector(n) + HideCall)
      && EndsWith(html, DivClose)
  {
    if name.None? then ""
    else
      var c := BatchParts(name.value);
      if |c| != 2 then ""
      else
        var pieces := PopupPieces(c[1], name.value, text);
        ConcatEnds(pieces);
        OccursPiece(pieces, 1);
        OccursPiece(pieces, 3);
        OccursPiece(pieces, 6);
        Concat(pieces)
  }

  const ScriptCallOpen := "\t\t$("
  const ScriptCallClose := ").popup({\n"
  const Transition := "\t\t\ttransition: 'all 0.3s',\n"
  const ScrollLock := "\t\t\tscrolllock: true\n"
  const ScriptClose := "\t\t});\n"

  /** The first line of the script of batch `n`. */
  function ScriptHead(n: string): string
  {
    ScriptCallOpen + PopupSelector(n) + ScriptCallClose
  }

  /** The pieces `buildBatchPopupScript` appends, in order. */
  function ScriptPieces(n: string): seq<string>
  {
    [ ScriptHead(n), Transition, ScrollLock, ScriptClose ]
  }

  /** `buildBatchPopupScript`: the script that registers the popup of a
      batch; `''` under the same condition as the popup itself. */
  function BuildBatchPopupScript(name: Option<string>): (js: string)
    ensures js == "" <==> !NamesBatch(name)
    ensures NamesBatch(name) ==>
      var n := BatchParts(name.value)[1];
      && StartsWith(js, ScriptHead(n))
      && Occurs(js, Transition)
      && Occurs(js, ScrollLock)
      && EndsWith(js, ScriptClose)
  {
    if name.None? then ""
    else
      var c := BatchParts(name.value);
      if |c| != 2 then ""
      else
        var pieces := ScriptPieces(c[1]);
        ConcatEnds(pieces);
        OccursPiece(pieces, 1);
        OccursPiece(pieces, 2);
        Concat(pieces)
  }

  /** The name a batch description file is expected to have. */
  function BatchFileName(n: string): string
  {
    "Batch_" + n + ".txt"
  }

  /** The batch number of `Batch_<n>.txt` is `n`, for a number that holds
      no `_` and no `.`. */
  lemma BatchNameRoundTrip(n: string)
    requires '_' !in n && '.' !in n
    ensures BatchParts(BatchFileName(n)) == ["Batch", n]
    ensures NamesBatch(Some(BatchFileName(n)))
  {
    var stem := "Batch_" + n;
    assert '.' !in stem by {
      forall k | 0 <= k < |stem| ensures stem[k] != '.' {
        if k >= 6 { assert stem[k] == n[k - 6]; }
      }
    }
    NoMatchInPrefix(stem, ".txt", "");
    ReplaceFirst(stem, ".txt", "", "");
    assert stem + ".txt" + "" == BatchFileName(n);
    assert stem + "" + Replace("", ".txt", "") == stem;
    assert Join(["Batch", n], '_') == stem;
    JoinThenSplit(["Batch", n], '_');
  }

  /** A name with a second `_` in its batch number does not name a batch:
      `Batch_1_2.txt` gets neither popup nor script. */
  lemma ExtraUnderscoreNoPopup(a: string, b: string, text: string)
    requires '_' !in a && '_' !in b && '.' !in a && '.' !in b
    ensures BuildBatchPopup(Some(BatchFileName(a + "_" + b)), text) == ""
    ensures BuildBatchPopupScript(Some(BatchFileName(a + "_" + b))) == ""
  {
    var stem := "Batch_" + a + "_" + b;
    assert '.' !in stem by {
      forall k | 0 <= k < |stem| ensures stem[k] != '.' {
        if 6 <= k < 6 + |a| { assert stem[k] == a[k - 6]; }
        else if k > 6 + |a| { assert stem[k] == b[k - 7 - |a|]; }
      }
    }
    NoMatchInPrefix(stem, ".txt", "");
    ReplaceFirst(stem, ".txt", "", "");
    assert stem + ".txt" + "" == BatchFileName(a + "_" + b);
    assert stem + "" + Replace("", ".txt", "") == stem;
    assert Join([a, b], '_') == a + "_" + b;
    assert ["Batch", a, b][1..] == [a, b];
    assert Join(["Batch", a, b], '_') == stem;
    JoinThenSplit(["Batch", a, b], '_');
  }

  // ---------------------------------------------------------------------
  // processBatchDirectory
  // ---------------------------------------------------------------------

  /** A file of the batch directory walk: its directory, name and text
      (`None` when the file is missing or empty, as `read_file_as_string`
      reports). */
  datatype BatchFile = BatchFile(root: string, name: string, text: Option<string>)

  /** The popup and script built for one batch file. */
  datatype BatchEntry = BatchEntry(name: string, popup: string, script: string)

  /** The batch dictionary, in insertion order, with distinct names. */
  type BatchDic = seq<BatchEntry>

  /** The batch files `processBatchDirectory` looks at. */
  predicate IsBatchFile(name: string)
  {
    EndsWith(name, ".txt") && StartsWith(name, "Batch_")
  }

  function Lookup(d: BatchDic, name: string): (r: Option<BatchEntry>)
    ensures r.Some? ==> r.value.name == name
    ensures r.None? <==> forall i :: 0 <= i < |d| ==> d[i].name != name
  {
    if |d| == 0 then None
    else if d[0].name == name then Some(d[0])
    else
      var r := Lookup(d[1..], name);
      assert forall i :: 1 <= i < |d| ==> d[i] == d[1..][i - 1];
      r
  }

  predicate DistinctNames(d: BatchDic)
  {
    forall i, j :: 0 <= i < j < |d| ==> d[i].name != d[j].name
  }

  datatype Gathered = Gathered(dic: BatchDic, count: nat)

  /** How many of the files are batch files (a name seen twice counts twice). */
  function CountBatchFiles(files: seq<BatchFile>): nat
    decreases |files|
  {
    if |files| == 0 then 0
    else (if IsBatchFile(files[0].name) then 1 else 0) + CountBatchFiles(files[1..])
  }

  /** The entry a batch file name with text gets. */
  function EntryFor(name: string, text: string): BatchEntry
  {
    BatchEntry(name, BuildBatchPopup(Some(name), text), BuildBatchPopupScript(Some(name)))
  }

  /** The entry one batch file adds: none for a name already in the
      dictionary or a file without text. */
  function Visit(g: Gathered, f: BatchFile): (g': Gathered)
  {
    if !IsBatchFile(f.name) then g
    else
      var counted := g.(count := g.count + 1);
      if Lookup(g.dic, f.name).Some? then counted
      else if f.text.None? then counted
      else
        counted.(dic := g.dic + [EntryFor(f.name, f.text.value)])
  }

  /** One visit counts a batch file, keeps the names distinct and adds
      only batch files. */
  lemma VisitFacts(g: Gathered, f: BatchFile)
    ensures Visit(g, f).count == g.count + (if IsBatchFile(f.name) then 1 else 0)
    ensures DistinctNames(g.dic) ==> DistinctNames(Visit(g, f).dic)
    ensures forall e :: e in Visit(g, f).dic ==> e in g.dic || IsBatchFile(e.name)
  {
    if IsBatchFile(f.name) && Lookup(g.dic, f.name).None? && f.text.Some? {
      var e := EntryFor(f.name, f.text.value);
      assert Visit(g, f).dic == g.dic + [e];
      DistinctAppend(g.dic, e);
      assert forall x :: x in g.dic + [e] ==> x in g.dic || x == e;
    } else {
      assert Visit(g, f).dic == g.dic;
    }
  }

  lemma DistinctAppend(d: BatchDic, e: BatchEntry)
    requires forall i :: 0 <= i < |d| ==> d[i].name != e.name
    ensures DistinctNames(d) ==> DistinctNames(d + [e])
  {
  }

  function GatherFrom(g: Gathered, files: seq<BatchFile>): (g': Gathered)
    ensures g'.count == g.count + CountBatchFiles(files)
    ensures DistinctNames(g.dic) ==> DistinctNames(g'.dic)
    ensures forall e :: e in g'.dic ==> e in g.dic || IsBatchFile(e.name)
    decreases |files|
  {
    if |files| == 0 then g
    else
      var g1 := Visit(g, files[0]);
      VisitFacts(g, files[0]);
      GatherFrom(g1, files[1..])
  }

  /** `processBatchDirectory`: the batch dictionary built from the walk of
      the batch directory, and the number of batch files seen. */
  function ProcessBatchDirectory(files: seq<BatchFile>): (g: Gathered)
    ensures g.count == CountBatchFiles(files)
    ensures DistinctNames(g.dic)
    ensures forall e :: e in g.dic ==> IsBatchFile(e.name)
  {
    GatherFrom(Gathered([], 0), files)
  }

  /** The text of the first file of that name that has one. */
  function FirstText(files: seq<BatchFile>, name: string): Option<string>
    decreases |files|
  {
    if |files| == 0 then None
    else if files[0].name == name && files[0].text.Some? then files[0].text
    else FirstText(files[1..], name)
  }

  /** What gathering from a dictionary does to one name: an entry already
      there stays; otherwise a batch file name gets the entry built from its
      first text, and any other name stays absent. */
  lemma {:induction false} GatherLookup(g: Gathered, files: seq<BatchFile>, name: string)
    ensures Lookup(GatherFrom(g, files).dic, name) ==
      if Lookup(g.dic, name).Some? then Lookup(g.dic, name)
      else if IsBatchFile(name) && FirstText(files, name).Some? then
        Some(EntryFor(name, FirstText(files, name).value))
      else None
    decreases |files|
  {
    if |files| > 0 {
      var f := files[0];
      var g1 := Visit(g, f);
      assert GatherFrom(g, files) == GatherFrom(g1, files[1..]);
      GatherLookup(g1, files[1..], name);
      VisitLookup(g, f, name);
    }
  }

  /** What one visit does to one name. */
  lemma VisitLookup(g: Gathered, f: BatchFile, name: string)
    ensures Lookup(Visit(g, f).dic, name) ==
      if Lookup(g.dic, name).Some? then Lookup(g.dic, name)
      else if f.name == name && IsBatchFile(name) && f.text.Some? then Some(EntryFor(name, f.text.value))
      else None
  {
    if IsBatchFile(f.name) && Lookup(g.dic, f.name).None? && f.text.Some? {
      LookupAppend(g.dic, EntryFor(f.name, f.text.value), name);
    }
  }

  lemma LookupAppend(d: BatchDic, e: BatchEntry, name: string)
    ensures Lookup(d + [e], name) ==
      if Lookup(d, name).Some? then Lookup(d, name)
      else if e.name == name then Some(e) else None
  {
    var d' := d + [e];
    if Lookup(d, name).None? {
      assert forall i :: 0 <= i < |d| ==> d'[i] == d[i];
      if e.name == name {
        assert forall i :: 0 <= i < |d| ==> d'[i].name != name;
        LookupFirst(d', |d|, name);
      }
    } else {
      var i :| 0 <= i < |d| && d[i].name == name;
      LookupPrefix(d, [e], name);
    }
  }

  lemma {:induction false} LookupFirst(d: BatchDic, k: nat, name: string)
    requires k < |d| && d[k].name == name
    requires forall i :: 0 <= i < k ==> d[i].name != name
    ensures Lookup(d, name) == Some(d[k])
    decreases k
  {
    if k > 0 {
      assert d[1..][k - 1] == d[k];
      LookupFirst(d[1..], k - 1, name);
    }
  }

  lemma {:induction false} LookupPrefix(d: BatchDic, tail: BatchDic, name: string)
    requires Lookup(d, name).Some?
    ensures Lookup(d + tail, name) == Lookup(d, name)
    decreases |d|
  {
    assert (d + tail)[0] == d[0];
    if d[0].name != name {
      assert (d + tail)[1..] == d[1..] + tail;
      LookupPrefix(d[1..], tail, name);
    }
  }

  /** The batch dictionary, name by name: a batch file name is present
      exactly when some file of that name has text, and its popup and script
      come from the first such file; a later file of the same name is
      skipped. */
  lemma BatchDirectoryLookup(files: seq<BatchFile>, name: string)
    ensures Lookup(ProcessBatchDirectory(files).dic, name) ==
      if IsBatchFile(name) && FirstText(files, name).Some? then
        Some(EntryFor(name, FirstText(files, name).value))
      else None
  {
    GatherLookup(Gathered([], 0), files, name);
  }

  // ---------------------------------------------------------------------
  // createTableData
  // ---------------------------------------------------------------------

  const RowOpen := "\t<tr>\n"
  const RowClose := "\t</tr>\n"
  const TdOpen := "\t\t<td>"
  const TdClose := "</td>\n"

  /** A plain table cell. */
  function Cell(x: string): string
  {
    TdOpen + x + TdClose
  }

  const LinkOpen := "\t\t<td><a href=\"#\" onclick=\"$("
  const ShowCall := ").popup('show');\">"
  const LinkClose := "</a></td>\n"

  /** The pieces of the batch cell that opens the batch's popup. */
  function BatchLinkPieces(b: string): seq<string>
  {
    [LinkOpen, PopupSelector(b), ShowCall, b, LinkClose]
  }

  function BatchLinkCell(b: string): string
  {
    Concat(BatchLinkPieces(b))
  }

  /** The batch cell: a link to the popup when the dictionary has the
      batch's file `Batch_<b>.txt`, a plain cell otherwise. */
  function BatchCell(b: string, dic: Option<BatchDic>): string
  {
    if dic.Some? then
      if Lookup(dic.value, BatchFileName(b)).Some? then BatchLinkCell(b)
      else Cell(b)
    else Cell(b)
  }

  const ImgOpen := "\t\t<td><span class=\"flagicon\"><img alt="
  const SrcOpen := " src=\""
  const ImgClose := "\"  width=\"128\" height=\"128\" class=\"thumbborder\" />&#160;</span>"

  /** The image of a profile's shape, `<asc_dir>/<profile>.png`. */
  function ImagePath(ascDir: string, profile: string): string
  {
    ascDir + "/" + profile + ".png"
  }

  /** The pieces of the profile cell: a thumbnail of the profile's image,
      then its id. */
  function ImagePieces(profile: string, ascDir: string): seq<string>
  {
    [ImgOpen, profile, SrcOpen, ImagePath(ascDir, profile), ImgClose, profile, TdClose]
  }

  function ImageCell(profile: string, ascDir: string): string
  {
    Concat(ImagePieces(profile, ascDir))
  }

  const FileLinkOpen := "\t\t<td><a href='"
  const FileLinkMid := "'>"

  /** The pieces of the file cell: the file name, linking to its path. */
  function FilePieces(path: string, name: string): seq<string>
  {
    [FileLinkOpen, path, FileLinkMid, name, LinkClose]
  }

  function FileCell(path: string, name: string): string
  {
    Concat(FilePieces(path, name))
  }

  /** The twelve cells of a row, in the order `createTableData` appends them. */
  function RowCells(p: seq<string>, ascDir: string, dic: Option<BatchDic>): seq<string>
    requires |p| >= 14
  {
    [ Cell(p[2]), BatchCell(p[1], dic), Cell(p[3]), Cell(p[4]), Cell(p[5]), Cell(p[6]),
      ImageCell(p[7], ascDir), Cell(p[8]), FileCell(p[9], p[0]),
      Cell(p[12]), Cell(p[13]), Cell(p[11]) ]
  }

  /** The manifest field each column shows: type, batch, period, DM, Z, S/N,
      profile, frequency, file name, GB, MD5, bits. The parent directory
      (field 10) has no column. */
  const Shown: seq<nat> := [2, 1, 3, 4, 5, 6, 7, 8, 0, 12, 13, 11]

  /** Each column's cell shows the field that column is for; the profile
      cell shows the image `<asc_dir>/<profile>.png`, the file cell links to
      the path, and the batch cell links to the batch's popup exactly when
      the dictionary has the batch's file. */
  lemma RowCellsShow(p: seq<string>, ascDir: string, dic: Option<BatchDic>)
    requires |p| >= 14
    ensures |RowCells(p, ascDir, dic)| == |Shown|
    ensures forall c :: 0 <= c < |Shown| ==> Occurs(RowCells(p, ascDir, dic)[c], p[Shown[c]])
    ensures Occurs(RowCells(p, ascDir, dic)[6], ImagePath(ascDir, p[7]))
    ensures Occurs(RowCells(p, ascDir, dic)[8], p[9])
    ensures dic.Some? && Lookup(dic.value, BatchFileName(p[1])).Some? ==>
      RowCells(p, ascDir, dic)[1] == BatchLinkCell(p[1])
    ensures !(dic.Some? && Lookup(dic.value, BatchFileName(p[1])).Some?) ==>
      RowCells(p, ascDir, dic)[1] == Cell(p[1])
  {
    var cells := RowCells(p, ascDir, dic);
    forall c | 0 <= c < |Shown| ensures Occurs(cells[c], p[Shown[c]]) {
      if c == 1 && cells[1] == BatchLinkCell(p[1]) {
        OccursPiece(BatchLinkPieces(p[1]), 3);
      } else if c == 6 {
        OccursPiece(ImagePieces(p[7], ascDir), 1);
      } else if c == 8 {
        OccursPiece(FilePieces(p[9], p[0]), 3);
      } else {
        OccursInMiddle(TdOpen, p[Shown[c]], TdClose);
      }
    }
    OccursPiece(ImagePieces(p[7], ascDir), 3);
    OccursPiece(FilePieces(p[9], p[0]), 1);
  }

  /** `createTableData`: one table row for the fields of a manifest line,
      `\t<tr>\n`, the twelve cells in column order, `\t</tr>\n`. */
  function CreateTableData(p: seq<string>, ascDir: string, dic: Option<BatchDic>): (html: string)
    requires |p| >= 14
    ensures html == RowOpen + Concat(RowCells(p, ascDir, dic)) + RowClose
    ensures StartsWith(html, RowOpen) && EndsWith(html, RowClose)
    ensures forall c :: 0 <= c < 12 ==> Occurs(html, RowCells(p, ascDir, dic)[c])
    ensures forall c :: 0 <= c < |Shown| ==> Occurs(html, p[Shown[c]])
  {
    var cells := RowCells(p, ascDir, dic);
    var html := Concat([RowOpen] + cells + [RowClose]);
    FramedPieces(RowOpen, cells, RowClose);
    ConcatAppend([RowOpen] + cells, [RowClose]);
    ConcatAppend([RowOpen], cells);
    RowCellsShow(p, ascDir, dic);
    forall c | 0 <= c < |Shown| ensures Occurs(html, p[Shown[c]]) {
      OccursTrans(html, cells[c], p[Shown[c]]);
    }
    html
  }

  /** The batch cell of a row, the popup and the script built for that
      batch's file agree on the popup id `batch_pop_<b>`, for a batch number
      with no `_` and no `.`. */
  lemma LinkOpensPopup(b: string, text: string)
    requires '_' !in b && '.' !in b
    ensures Occurs(BatchLinkCell(b), PopupSelector(b))
    ensures StartsWith(BuildBatchPopup(Some(BatchFileName(b)), text), PopupHead(b))
    ensures StartsWith(BuildBatchPopupScript(Some(BatchFileName(b))), ScriptHead(b))
  {
    BatchNameRoundTrip(b);
    OccursPiece(BatchLinkPieces(b), 1);
  }

  // ---------------------------------------------------------------------
  // build
  // ---------------------------------------------------------------------

  /** `Common.read_file`: the lines of the manifest, `None` when the file is
      missing (`None` here) or empty. */
  function ReadFile(content: Option<string>): (lines: Option<seq<string>>)
    ensures lines.Some? <==> content.Some? && |content.value| > 0
    ensures lines.Some? ==> |lines.value| > 0 && Concat(lines.value) == content.value
  {
    if content.None? || |content.value| == 0 then None
    else
      ReadLinesSpec(content.value);
      Some(ReadLines(content.value))
  }

  /** A manifest line `build` can render: fourteen comma-separated fields. */
  predicate RowShaped(line: string)
  {
    |Split(line, ',')| == 14
  }

  predicate AllShaped(lines: seq<string>)
  {
    forall i :: 0 <= i < |lines| ==> RowShaped(lines[i])
  }

  /** The rows of the lines, in order. */
  function RowsHtml(lines: seq<string>, ascDir: string, dic: BatchDic): string
    requires AllShaped(lines)
    decreases |lines|
  {
    if |lines| == 0 then ""
    else
      var front := lines[..|lines| - 1];
      assert AllShaped(front) by {
        forall i | 0 <= i < |front| ensures RowShaped(front[i]) { assert front[i] == lines[i]; }
      }
      RowsHtml(front, ascDir, dic)
        + CreateTableData(Split(lines[|lines| - 1], ','), ascDir, Some(dic))
  }

  lemma RowsHtmlSnoc(lines: seq<string>, i: nat, ascDir: string, dic: BatchDic)
    requires i < |lines| && AllShaped(lines[..i]) && RowShaped(lines[i])
    ensures AllShaped(lines[..i + 1])
    ensures RowsHtml(lines[..i + 1], ascDir, dic) ==
      RowsHtml(lines[..i], ascDir, dic) + CreateTableData(Split(lines[i], ','), ascDir, Some(dic))
  {
    var prefix := lines[..i + 1];
    assert prefix[..i] == lines[..i] && prefix[i] == lines[i];
    assert forall k :: 0 <= k < i ==> prefix[k] == lines[..i][k];
  }

  datatype Rows = Rows(html: string, count: nat)

  /** The row loop of `build`: `None` (the build returns `False`) at the
      first line without fourteen fields; otherwise the rows of all lines
      and their number. */
  method BuildRows(lines: seq<string>, ascDir: string, dic: BatchDic) returns (r: Option<Rows>)
    ensures r.None? <==> !AllShaped(lines)
    ensures r.Some? ==> r.value.count == |lines| && r.value.html == RowsHtml(lines, ascDir, dic)
  {
    var html := "";
    var count := 0;
    var i := 0;
    while i < |lines|
      invariant 0 <= i <= |lines| && count == i
      invariant AllShaped(lines[..i])
      invariant html == RowsHtml(lines[..i], ascDir, dic)
    {
      var parameters := Split(lines[i], ',');
      if |parameters| != 14 {
        return None;
      }
      RowsHtmlSnoc(lines, i, ascDir, dic);
      html := html + CreateTableData(parameters, ascDir, Some(dic));
      count := count + 1;
      i := i + 1;
    }
    assert lines[..i] == lines;
    return Some(Rows(html, count));
  }

  /** The popups of the batches, in dictionary order. */
  function Popups(dic: BatchDic): string
  {
    Concat(seq(|dic|, i requires 0 <= i < |dic| => dic[i].popup))
  }

  const ScriptBlockOpen := "\n<script>\n\t$(document).ready(function () {\n"
  const ScriptBlockClose := "\t});\n</script>\n"

  /** The script registering every popup once the document is ready. */
  function PopupScript(dic: BatchDic): string
  {
    ScriptBlockOpen
      + Concat(seq(|dic|, i requires 0 <= i < |dic| => dic[i].script))
      + ScriptBlockClose
  }

  /** The three HTML fragment files around the table. */
  datatype Fragments = Fragments(top: string, middle: string, bottom: string)

  const TotalMarker := "@TOTAL@"

  /** The page: top, rows, middle, popups, script, bottom, with every
      `@TOTAL@` replaced by the number of rows. */
  function PageText(lines: seq<string>, ascDir: string, dic: BatchDic, frags: Fragments): string
    requires AllShaped(lines)
  {
    Replace(frags.top + RowsHtml(lines, ascDir, dic) + frags.middle + Popups(dic)
              + PopupScript(dic) + frags.bottom,
            TotalMarker, NatToString(|lines|))
  }

  datatype Page = Page(html: string, count: nat)

  /** `build`: the page for a manifest (`None` for a missing file), the
      batch directory walk and the fragments; no page, as `build` returns
      `False` or nothing, when the manifest is missing or empty or a line
      does not have fourteen fields. */
  method Build(manifest: Option<string>, ascDir: string, batchFiles: seq<BatchFile>, frags: Fragments)
    returns (page: Option<Page>)
    ensures page.Some? <==> ReadFile(manifest).Some? && AllShaped(ReadFile(manifest).value)
    ensures page.Some? ==>
      var lines := ReadFile(manifest).value;
      && page.value.count == |lines|
      && page.value.html == PageText(lines, ascDir, ProcessBatchDirectory(batchFiles).dic, frags)
  {
    if manifest.None? {
      return None;
    }
    var batchInfo := ProcessBatchDirectory(batchFiles).dic;
    var entries := ReadFile(manifest);
    if entries.None? {
      return None;
    }
    var rows := BuildRows(entries.value, ascDir, batchInfo);
    if rows.None? {
      return None;
    }
    var index := frags.top + rows.value.html + frags.middle + Popups(batchInfo)
                 + PopupScript(batchInfo) + frags.bottom;
    index := Replace(index, TotalMarker, NatToString(rows.value.count));
    return Some(Page(index, rows.value.count));
  }

  /** Replacing the markers of a text whose first marker follows a prefix
      with no `@` puts the replacement right after that prefix. */
  lemma MarkerFirst(before: string, after: string, r: string, m: string, p: string,
                    sc: string, b: string, rep: string)
    requires '@' !in before
    ensures StartsWith(Replace(before + TotalMarker + after + r + m + p + sc + b, TotalMarker, rep),
                       before + rep)
  {
    var head := before + TotalMarker;
    AppendAssoc(head, after, r);
    AppendAssoc(head, after + r, m);
    AppendAssoc(head, after + r + m, p);
    AppendAssoc(head, after + r + m + p, sc);
    AppendAssoc(head, after + r + m + p + sc, b);
    var rest := after + r + m + p + sc + b;
    NoMatchInPrefix(before, TotalMarker, rest);
    ReplaceFirst(before, TotalMarker, rep, rest);
  }

  /** The number of rows stands where the top fragment has its first
      `@TOTAL@`, when nothing before it starts with `@`. */
  lemma TotalShown(lines: seq<string>, ascDir: string, dic: BatchDic, frags: Fragments,
                   before: string, after: string)
    requires AllShaped(lines)
    requires frags.top == before + TotalMarker + after && '@' !in before
    ensures StartsWith(PageText(lines, ascDir, dic, frags), before + NatToString(|lines|))
  {
    MarkerFirst(before, after, RowsHtml(lines, ascDir, dic), frags.middle, Popups(dic),
                PopupScript(dic), frags.bottom, NatToString(|lines|));
  }

  /** A manifest text the scanner wrote renders: every line has fourteen
      fields, the file name first, the path tenth and the MD5 last with the
      line's newline, and there are as many rows as records. */
  lemma WrittenManifestRenders(rs: seq<ManifestRecord>)
    requires |rs| > 0 && forall i :: 0 <= i < |rs| ==> Clean(rs[i])
    ensures ReadFile(Some(Concat(CsvLines(rs)))) == Some(CsvLines(rs))
    ensures AllShaped(CsvLines(rs))
    ensures forall i :: 0 <= i < |rs| ==>
      Split(CsvLines(rs)[i], ',') == Fields(rs[i])[..13] + [rs[i].md5 + "\n"]
  {
    var lines := CsvLines(rs);
    forall i | 0 <= i < |lines| ensures IsLine(lines[i]) && EndsWith(lines[i], "\n") {
      CsvLineIsLine(rs[i]);
    }
    ReadLinesOfConcat(lines);
    assert |Concat(lines)| > 0 by {
      OccursPiece(lines, 0);
    }
    forall i | 0 <= i < |rs| ensures Split(lines[i], ',') == Fields(rs[i])[..13] + [rs[i].md5 + "\n"] {
      CsvSplit(rs[i]);
    }
  }
}
