/** The cleaning pass of the design-mode index builder (`design/index.py`):
    keep the spreadsheet rows that name a style, a file and a description
    and whose image exists under `static/<style>/images/`, point each kept
    row at that image, and collect the descriptions to embed in the same
    order. */
module DesignIndex {
  import opened Optional
  import opened Text
  import opened Catalog
  import opened Sublists

  /** Whether a file exists at a path: the file system, as a parameter. */
  type FileExists = string -> bool

  /** `os.path.join(script_dir, 'static', style.lower(), 'images', file_name)`.
      With either real separator, and parts that neither start nor end with
      it, the parts are joined with exactly one separator between each two. */
  function ImagePath(dir: string, style: string, fileName: string, sep: char): (r: string)
    ensures var low := LowerStr(style);
      && (sep == '/' || sep == '\\')
      && |dir| > 0 && dir[|dir| - 1] != sep
      && |low| > 0 && low[0] != sep && low[|low| - 1] != sep
      && (|fileName| == 0 || fileName[0] != sep)
      ==> r == dir + [sep] + "static" + [sep] + low + [sep] + "images" + [sep] + fileName
  {
    Join(Join(Join(Join(dir, "static", sep), LowerStr(style), sep), "images", sep), fileName, sep)
  }

  /** `f"/static/{style.lower()}/images/{file_name}"`: the lower-cased style
      between `/static/` and `/images/`, then the file name. */
  function ImageUrl(style: string, fileName: string): (r: string)
    ensures |r| == |style| + |fileName| + 16
  {
    "/static/" + LowerStr(style) + "/images/" + fileName
  }

  /** The pieces of an image URL can be read back off it: the prefix, the
      lower-cased style, the `/images/` infix and the file name. */
  lemma ImageUrlParts(style: string, fileName: string)
    ensures var r := ImageUrl(style, fileName);
      && r[..8] == "/static/" && r[|r| - |fileName|..] == fileName
      && r[8..8 + |style|] == LowerStr(style) && r[8 + |style|..|r| - |fileName|] == "/images/"
  {
  }

  /** A row has a non-empty style, file name and description. A missing
      cell, `None` and NaN are all `None` here. */
  predicate Complete(it: Item) {
    Present(it.style) && Present(it.fileName) && Present(it.description)
  }

  /** The row survives cleaning: it is complete and its image exists. */
  function KeepTest(dir: string, sep: char, fileExists: FileExists): Item -> bool {
    (it: Item) => Complete(it) && fileExists(ImagePath(dir, it.style.value, it.fileName.value, sep))
  }

  /** A kept row with `File Path` and `file_url` set to its image; every
      other field is left as it was. */
  function Relocate(it: Item, dir: string, sep: char): (r: Item)
    requires Complete(it)
    ensures r.style == it.style && r.fileName == it.fileName && r.title == it.title
    ensures r.description == it.description && r.others == it.others
    ensures r.filePath == Some(ImagePath(dir, it.style.value, it.fileName.value, sep))
    ensures r.fileUrl == Some(ImageUrl(it.style.value, it.fileName.value))
    ensures Complete(r)
  {
    it.(filePath := Some(ImagePath(dir, it.style.value, it.fileName.value, sep)),
        fileUrl := Some(ImageUrl(it.style.value, it.fileName.value)))
  }

  function RelocateAll(items: seq<Item>, dir: string, sep: char): (r: seq<Item>)
    requires forall k :: 0 <= k < |items| ==> Complete(items[k])
    ensures |r| == |items|
    ensures forall k :: 0 <= k < |r| ==> r[k] == Relocate(items[k], dir, sep)
  {
    seq(|items|, k requires 0 <= k < |items| => Relocate(items[k], dir, sep))
  }

  lemma RelocateAllAppend(items: seq<Item>, it: Item, dir: string, sep: char)
    requires forall k :: 0 <= k < |items| ==> Complete(items[k])
    requires Complete(it)
    ensures RelocateAll(items + [it], dir, sep) == RelocateAll(items, dir, sep) + [Relocate(it, dir, sep)]
  {
  }

  /** The rows cleaning keeps, already relocated: the whole loop, stated
      without the loop. */
  function Cleaned(records: seq<Item>, dir: string, sep: char, fileExists: FileExists): seq<Item> {
    RelocateAll(Filter(records, KeepTest(dir, sep, fileExists)), dir, sep)
  }

  /** Step 3 of the builder: one pass over the rows, keeping and relocating
      those that pass, and collecting their descriptions alongside. */
  method Clean(records: seq<Item>, dir: string, sep: char, fileExists: FileExists)
    returns (cleaned: seq<Item>, descriptions: seq<string>)
    ensures cleaned == Cleaned(records, dir, sep, fileExists)
    ensures |descriptions| == |cleaned|
    ensures forall k :: 0 <= k < |cleaned| ==>
      cleaned[k].description == Some(descriptions[k]) && descriptions[k] != ""
  {
    cleaned := [];
    descriptions := [];
    var j := 0;
    while j < |records|
      invariant j <= |records|
      invariant cleaned == Cleaned(records[..j], dir, sep, fileExists)
      invariant |descriptions| == |cleaned|
      invariant forall k :: 0 <= k < |cleaned| ==>
        cleaned[k].description == Some(descriptions[k]) && descriptions[k] != ""
    {
      cleaned, descriptions := CleanRow(records, j, dir, sep, fileExists, cleaned, descriptions);
      j := j + 1;
    }
    assert records[..j] == records;
  }

  /** One turn of the cleaning loop: row `j` is added, relocated, with its
      description alongside, exactly when it is kept. */
  method CleanRow(records: seq<Item>, j: nat, dir: string, sep: char, fileExists: FileExists,
                  cleaned0: seq<Item>, descriptions0: seq<string>)
    returns (cleaned: seq<Item>, descriptions: seq<string>)
    requires j < |records|
    requires cleaned0 == Cleaned(records[..j], dir, sep, fileExists)
    requires |descriptions0| == |cleaned0|
    requires forall k :: 0 <= k < |cleaned0| ==>
      cleaned0[k].description == Some(descriptions0[k]) && descriptions0[k] != ""
    ensures cleaned == Cleaned(records[..j + 1], dir, sep, fileExists)
    ensures |descriptions| == |cleaned|
    ensures forall k :: 0 <= k < |cleaned| ==>
      cleaned[k].description == Some(descriptions[k]) && descriptions[k] != ""
  {
    var item := records[j];
    CleanStep(records, j, dir, sep, fileExists);
    var kept := CleanOne(item, dir, sep, fileExists);
    cleaned, descriptions := cleaned0, descriptions0;
    if kept.Some? {
      cleaned := cleaned + [kept.value];
      descriptions := descriptions + [item.description.value];
      assert forall k :: 0 <= k < |cleaned0| ==> cleaned[k] == cleaned0[k] && descriptions[k] == descriptions0[k];
    }
  }

  /** The body of the cleaning loop for one row: skip it when a cell is
      missing or its image does not exist, otherwise point it at its image. */
  method CleanOne(item: Item, dir: string, sep: char, fileExists: FileExists) returns (kept: Option<Item>)
    ensures kept.Some? <==> Complete(item) && fileExists(ImagePath(dir, item.style.value, item.fileName.value, sep))
    ensures kept.Some? ==> kept.value == Relocate(item, dir, sep)
  {
    if !(Present(item.style) && Present(item.fileName) && Present(item.description)) {
      assert !Complete(item);
      return None;
    }
    var style := item.style.value;
    var fileName := item.fileName.value;
    var path := ImagePath(dir, style, fileName, sep);
    var url := ImageUrl(style, fileName);
    if !fileExists(path) {
      return None;
    }
    return Some(item.(filePath := Some(path), fileUrl := Some(url)));
  }

  /** One more row: it is added, relocated, exactly when it is kept. */
  lemma CleanStep(records: seq<Item>, j: nat, dir: string, sep: char, fileExists: FileExists)
    requires j < |records|
    ensures var it := records[j];
      Cleaned(records[..j + 1], dir, sep, fileExists)
        == Cleaned(records[..j], dir, sep, fileExists)
           + (if Complete(it) && fileExists(ImagePath(dir, it.style.value, it.fileName.value, sep))
              then [Relocate(it, dir, sep)] else [])
  {
    var keep := KeepTest(dir, sep, fileExists);
    var before := Filter(records[..j], keep);
    FilterSnoc(records, j, keep);
    if keep(records[j]) {
      RelocateAllAppend(before, records[j], dir, sep);
    } else {
      assert before + [] == before;
    }
  }

  /** Cleaning keeps rows in their order, and keeps a row exactly when it
      names a style, a file and a description and its image exists. */
  lemma CleanedKeepsExactlyValid(records: seq<Item>, dir: string, sep: char, fileExists: FileExists)
    returns (pos: seq<nat>)
    ensures var c := Cleaned(records, dir, sep, fileExists);
      Increasing(pos, |records|) && |pos| == |c| &&
      forall k :: 0 <= k < |c| ==> Complete(records[pos[k]]) && c[k] == Relocate(records[pos[k]], dir, sep)
    ensures forall i :: 0 <= i < |records| ==>
      (i in pos <==> Complete(records[i])
                     && fileExists(ImagePath(dir, records[i].style.value, records[i].fileName.value, sep)))
  {
    pos := FilterPositions(records, KeepTest(dir, sep, fileExists));
  }

  /** With `/` as the separator, the URL a browser requests is the path of
      the image whose existence was checked, taken relative to the script's
      directory: the two are built from the same parts. */
  lemma UrlNamesCheckedImage(dir: string, style: string, fileName: string)
    requires |dir| > 0 && dir[|dir| - 1] != '/'
    requires |style| > 0 && style[0] != '/' && style[|style| - 1] != '/'
    requires |fileName| == 0 || fileName[0] != '/'
    ensures ImagePath(dir, style, fileName, '/') == dir + ImageUrl(style, fileName)
  {
    var low := LowerStr(style);
    var a := dir + "/" + "static";
    var b := a + "/" + low;
    var c := b + "/" + "images";
    assert Join(dir, "static", '/') == a by {
      JoinInserts(dir, "static");
    }
    assert Join(a, low, '/') == b by {
      assert low[0] == Lower(style[0]) && low[|low| - 1] == Lower(style[|style| - 1]);
      JoinInserts(a, low);
    }
    assert Join(b, "images", '/') == c by {
      JoinInserts(b, "images");
    }
    assert Join(c, fileName, '/') == c + "/" + fileName by {
      JoinInserts(c, fileName);
    }
    UrlParts(dir, low, fileName);
  }

  lemma UrlParts(dir: string, low: string, fileName: string)
    ensures dir + "/" + "static" + "/" + low + "/" + "images" + "/" + fileName
         == dir + ("/static/" + low + "/images/" + fileName)
  {
    assert "/" + "static" + "/" == "/static/" && "/" + "images" + "/" == "/images/";
  }

  /** Joining with `/` a part that does not end in one and a part that does
      not start with one puts one `/` between them. */
  lemma JoinInserts(a: string, b: string)
    requires |a| > 0 && a[|a| - 1] != '/'
    requires |b| == 0 || b[0] != '/'
    ensures Join(a, b, '/') == a + "/" + b
  {
  }
}
