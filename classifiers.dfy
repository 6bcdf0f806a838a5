/** The small pure decisions of the Collector, Finder and Sorter tabs: the
    set of extensions typed by the user, the Collector's membership test, the
    Finder's metadata filter and the Sorter's by-extension destination. */
module Classifiers {
  import opened Strings
  import opened Paths

  // ---------------------------------------------------------------------
  // Extension lists typed as "pdf, JPG, txt"
  // ---------------------------------------------------------------------

  /** {f".{ext.strip().lower()}" for ext in ext_str.split(',') if ext.strip()} */
  function ParseExtensions(s: string): set<string> {
    set e | e in Split(s, ',') && Strip(e) != [] :: Dotted(e)
  }

  /** One typed entry as an extension: a dot, then the entry stripped and
      lower-cased. */
  function Dotted(e: string): string {
    "." + Lower(Strip(e))
  }

  /** The parse holds the dotted form of exactly the non-blank entries. */
  lemma ParsedEntries(s: string, x: string)
    ensures x in ParseExtensions(s) <==> exists e :: e in Split(s, ',') && Strip(e) != [] && x == Dotted(e)
  {
  }

  /** Splitting at a comma between two texts splits each of them. */
  lemma {:induction false} SplitAtComma(a: string, b: string)
    ensures Split(a + [','] + b, ',') == Split(a, ',') + Split(b, ',')
  {
    var s := a + [','] + b;
    if a == [] {
      assert s == [','] + b && s[1..] == b;
    } else {
      var t := a[1..] + [','] + b;
      assert s == [a[0]] + t && a == [a[0]] + a[1..];
      SplitAtComma(a[1..], b);
      SplitPrepend(a[0], a[1..], t, Split(b, ','));
    }
  }

  /** One more leading character keeps a split relation between two texts. */
  lemma SplitPrepend(x: char, u: string, v: string, tail: seq<string>)
    requires Split(v, ',') == Split(u, ',') + tail
    ensures Split([x] + v, ',') == Split([x] + u, ',') + tail
  {
    SplitCons(x, v, ',');
    SplitCons(x, u, ',');
    if x == ',' {
      ConcatAssoc([""], Split(u, ','), tail);
    } else {
      SplitPrependPiece(x, Split(u, ','), Split(v, ','), tail);
    }
  }

  /** The first piece grows by the character, the others stay. */
  lemma SplitPrependPiece(x: char, su: seq<string>, sv: seq<string>, tail: seq<string>)
    requires |su| >= 1 && sv == su + tail
    ensures [[x] + sv[0]] + sv[1..] == ([[x] + su[0]] + su[1..]) + tail
  {
    assert sv[0] == su[0] && sv[1..] == su[1..] + tail;
    ConcatAssoc([[x] + su[0]], su[1..], tail);
  }

  /** The set parsed from two comma-separated lists is the union of theirs. */
  lemma ParseExtensionsUnion(a: string, b: string)
    ensures ParseExtensions(a + [','] + b) == ParseExtensions(a) + ParseExtensions(b)
  {
    SplitAtComma(a, b);
  }

  /** A non-blank entry becomes a dot followed by at least one character,
      with no comma, no trailing blank, and no upper-case letter. */
  lemma DottedShape(e: string)
    requires ',' !in e && Strip(e) != []
    ensures var x := Dotted(e);
            |x| >= 2 && x[0] == '.' && ',' !in x && !IsSpace(x[|x| - 1]) && Lower(x) == x
  {
    var t := Strip(e);
    var x := Dotted(e);
    assert ',' !in t by { StripInside(e, ','); }
    assert x[|x| - 1] == LowerChar(t[|t| - 1]);
    LowerCharSpace(t[|t| - 1]);
    assert ',' !in Lower(t);
    LowerAppend(".", Lower(t));
    LowerIdempotent(t);
  }

  /** Stripping keeps only characters of the entry. */
  lemma StripInside(e: string, c: char)
    requires c !in e
    ensures c !in Strip(e)
  {
    var t := Strip(e);
    var i, j :| 0 <= i <= j <= |e| && t == e[i..j];
    forall k | 0 <= k < |t|
      ensures t[k] != c
    {
      assert t[k] == e[i + k] && e[i + k] in e;
    }
  }

  lemma LowerCharSpace(c: char)
    ensures IsSpace(LowerChar(c)) == IsSpace(c)
  {
  }

  /** Every extension of the parse has that shape. */
  lemma ParsedShape(s: string, x: string)
    requires x in ParseExtensions(s)
    ensures |x| >= 2 && x[0] == '.' && ',' !in x && !IsSpace(x[|x| - 1]) && Lower(x) == x
  {
    var e :| e in Split(s, ',') && Strip(e) != [] && x == Dotted(e);
    SplitPieces(s, ',');
    DottedShape(e);
  }

  // ---------------------------------------------------------------------
  // Collector: the extension test of collector_preview_logic
  // ---------------------------------------------------------------------

  /** os.path.splitext(file)[1].lower() in extensions */
  predicate CollectorMatches(file: string, exts: set<string>) {
    Lower(Extension(file)) in exts
  }

  /** The Collector takes a file exactly when one of the typed entries,
      stripped, is the file's extension without its dot, in any case. */
  lemma CollectorMatchesTyped(s: string, file: string)
    ensures CollectorMatches(file, ParseExtensions(s)) <==>
            Extension(file) != [] &&
            exists e :: e in Split(s, ',') && Strip(e) != [] && Lower(Strip(e)) == Lower(Extension(file)[1..])
  {
    var x := Extension(file);
    if x != [] {
      assert x == "." + x[1..];
      LowerAppend(".", x[1..]);
      assert Lower(x) == "." + Lower(x[1..]);
      if CollectorMatches(file, ParseExtensions(s)) {
        ParsedEntries(s, Lower(x));
        var e :| e in Split(s, ',') && Strip(e) != [] && Lower(x) == Dotted(e);
        assert Lower(Strip(e)) == Lower(x)[1..];
      }
      if exists e :: e in Split(s, ',') && Strip(e) != [] && Lower(Strip(e)) == Lower(x[1..]) {
        var e :| e in Split(s, ',') && Strip(e) != [] && Lower(Strip(e)) == Lower(x[1..]);
        assert Dotted(e) in ParseExtensions(s);
      }
    }
  }

  /** What the Collector tab accepts before it starts: a non-empty text whose
      parse is non-empty, or the message box it shows instead. */
  datatype Checked<T> = Accepted(value: T) | Refused(title: string, message: string)

  function CollectorExtensions(extStr: string): (r: Checked<set<string>>)
    ensures r.Accepted? <==> extStr != [] && ParseExtensions(extStr) != {}
    ensures r.Accepted? ==> r.value == ParseExtensions(extStr)
  {
    if extStr == [] then Refused("No Extensions", "Please enter one or more file extensions (e.g., pdf, jpg).")
    else
      var exts := ParseExtensions(extStr);
      if exts == {} then Refused("No Extensions", "Please enter valid file extensions.")
      else Accepted(exts)
  }

  // ---------------------------------------------------------------------
  // Finder: the filter block of find_files_logic
  // ---------------------------------------------------------------------

  /** filters['size'], in whole bytes. */
  datatype SizeFilter = NoSize | SizeGreater(bytes: int) | SizeLess(bytes: int)

  /** filters['date'], as epoch seconds. */
  datatype DateFilter = NoDate | Before(time: int) | After(time: int)

  /** filters['ext']. */
  datatype ExtFilter = AnyExt | ExtIn(exts: set<string>)

  datatype FinderFilters = FinderFilters(size: SizeFilter, date: DateFilter, ext: ExtFilter)

  /** The size test, then the date test, then the extension test; any one
      that fails skips the file. A file passes exactly when every filter
      that is set holds, each comparison strictly. */
  function FinderMatches(f: FinderFilters, file: string, size: nat, mtime: int): (ok: bool)
    ensures ok <==> (f.size.SizeGreater? ==> size > f.size.bytes)
                    && (f.size.SizeLess? ==> size < f.size.bytes)
                    && (f.date.Before? ==> mtime < f.date.time)
                    && (f.date.After? ==> mtime > f.date.time)
                    && (f.ext.ExtIn? ==> CollectorMatches(file, f.ext.exts))
  {
    if f.size.SizeGreater? && !(size > f.size.bytes) then false
    else if f.size.SizeLess? && !(size < f.size.bytes) then false
    else if f.date.Before? && !(mtime < f.date.time) then false
    else if f.date.After? && !(mtime > f.date.time) then false
    else if f.ext.ExtIn? && !(Lower(Extension(file)) in f.ext.exts) then false
    else true
  }

  /** g sets every filter f sets, to the same value. */
  predicate Refines(g: FinderFilters, f: FinderFilters) {
    (f.size != NoSize ==> g.size == f.size)
    && (f.date != NoDate ==> g.date == f.date)
    && (f.ext != AnyExt ==> g.ext == f.ext)
  }

  /** Turning on more filters can only narrow the result. */
  lemma FinderNarrows(g: FinderFilters, f: FinderFilters, file: string, size: nat, mtime: int)
    requires Refines(g, f) && FinderMatches(g, file, size, mtime)
    ensures FinderMatches(f, file, size, mtime)
  {
  }

  /** A file exactly at a size or date threshold never passes that filter. */
  lemma FinderStrict(f: FinderFilters, file: string, size: nat, mtime: int)
    requires (f.size != NoSize && size == f.size.bytes) || (f.date != NoDate && mtime == f.date.time)
    ensures !FinderMatches(f, file, size, mtime)
  {
  }

  /** With only the extension filter, the Finder takes what the Collector
      takes for the same typed list. */
  lemma FinderAgreesWithCollector(s: string, file: string, size: nat, mtime: int)
    ensures FinderMatches(FinderFilters(NoSize, NoDate, ExtIn(ParseExtensions(s))), file, size, mtime)
            == CollectorMatches(file, ParseExtensions(s))
  {
  }

  /** The extension part of start_find_files: an enabled filter needs a
      non-empty text and a non-empty parse; then at least one filter must be
      on. The size and date values arrive already converted. */
  const NoExtensionsListed := "Error in filter settings: Extensions filter is enabled but no extensions are listed."
  const NoExtensionsParsed := "Error in filter settings: Could not parse any valid extensions."
  const NoFilterEnabled := "Please enable at least one filter to start the search."

  function FinderSetup(size: SizeFilter, date: DateFilter, extEnabled: bool, extStr: string): (r: Checked<FinderFilters>)
    ensures r.Accepted? <==> (extEnabled ==> extStr != [] && ParseExtensions(extStr) != {})
                             && (size != NoSize || date != NoDate || extEnabled)
    ensures r.Accepted? ==> r.value.size == size && r.value.date == date
                            && r.value.ext == (if extEnabled then ExtIn(ParseExtensions(extStr)) else AnyExt)
  {
    if extEnabled && extStr == [] then
      Refused("Invalid Filter", NoExtensionsListed)
    else if extEnabled && ParseExtensions(extStr) == {} then
      Refused("Invalid Filter", NoExtensionsParsed)
    else
      var ext := if extEnabled then ExtIn(ParseExtensions(extStr)) else AnyExt;
      if size == NoSize && date == NoDate && ext == AnyExt then
        Refused("No Filters", NoFilterEnabled)
      else Accepted(FinderFilters(size, date, ext))
  }

  // ---------------------------------------------------------------------
  // Sorter: the by-extension branch of sorter_preview_logic
  // ---------------------------------------------------------------------

  const NoExtension := "No Extension"

  /** ext_name: the extension without its dot, upper-cased, or
      "No Extension". */
  function SorterExtName(file: string): (r: string)
    ensures '/' !in r
  {
    var ext := Extension(file);
    if ext == [] then NoExtension
    else
      var u := Upper(ext[1..]);
      assert forall i :: 0 <= i < |u| ==> u[i] == UpperChar(ext[1..][i]) && ext[1..][i] != '/';
      u
  }

  /** The folder is "No Extension" exactly for files without an extension:
      an upper-cased extension never contains the lower-case 'o'. */
  lemma SorterNoExtension(file: string)
    ensures SorterExtName(file) == NoExtension <==> Extension(file) == []
  {
    var ext := Extension(file);
    if ext != [] && |Upper(ext[1..])| == |NoExtension| {
      // an upper-cased text has no lower-case 'o' at index 1
      assert Upper(ext[1..])[1] == UpperChar(ext[1..][1]) != NoExtension[1];
    }
  }

  /** Files whose extensions differ only in case share a folder. */
  lemma SorterCaseBlind(a: string, b: string)
    requires Lower(Extension(a)) == Lower(Extension(b))
    ensures SorterExtName(a) == SorterExtName(b)
  {
    var x, y := Extension(a), Extension(b);
    if x != [] && y != [] {
      assert Lower(x)[1..] == Lower(x[1..]) && Lower(y)[1..] == Lower(y[1..]);
      UpperOfLower(x[1..]);
      UpperOfLower(y[1..]);
    }
  }

  /** A file whose name ends in a dot has the one-character extension ".",
      so its folder name is empty and it lands in the output folder itself. */
  lemma SorterTrailingDot(file: string)
    requires Extension(file) == "."
    ensures SorterExtName(file) == []
  {
  }

  /** (new_dir, new_path) for a file found in the walk. */
  function SorterExtDest(sourceDir: Path, file: string): (r: (Path, Path))
    ensures IsName(file) ==> Under(r.1, Join(sourceDir, "Sorted by Extension"))
                             && r.1 != Join(sourceDir, "Sorted by Extension")
  {
    var extOutputDir := Join(sourceDir, "Sorted by Extension");
    var newDir := Join(extOutputDir, SorterExtName(file));
    var newPath := Join(newDir, file);
    if IsName(file) then
      SorterDestUnder(extOutputDir, SorterExtName(file), file);
      (newDir, newPath)
    else (newDir, newPath)
  }

  lemma SorterDestUnder(out: Path, name: string, file: string)
    requires IsName(file) && '/' !in name
    ensures Under(Join(Join(out, name), file), out) && Join(Join(out, name), file) != out
  {
    var d := Join(out, name);
    assert d == DirPrefix(out) + name;
    ChildUnder(d, file);
    if name != [] {
      ChildUnder(out, name);
      UnderTrans(Join(d, file), d, out);
    } else {
      assert d == DirPrefix(out);
      assert Join(d, file) == DirPrefix(out) + file;
    }
  }
}
