/** The CSV-to-XML converters of toh2xml.rb. A converter reads the lines of
    a CSV file into an insertion-ordered Hash, one line at a time, stopping
    at the first line it rejects; then it sorts the Hash by the numeric
    value of its keys and writes an XML file with one item per entry,
    counting the lines it believes it wrote.

    The file system is left out: a CSV file is the sequence of its lines
    (as `each_line` yields them, each with its line break), and the XML file
    is the string the converter has written so far. Raising an exception is
    returning a `Fail`. */
module Toh2xml {
  import opened Wrappers
  import opened RubyCore

  /** The exceptions a conversion can end with. All but `NoMethodError`
      carry the line number of their message and the line as it stood. */
  datatype ParseError =
    | NoMethodError                              // `split` sent to the nil that `strip!` returned
    | UnexpectedFormat(lineNo: nat, line: string)
    | DuplicateKey(lineNo: nat, line: string)
    | DuplicateValue(lineNo: nat, line: string)
    | WrongHeader(lineNo: nat, line: string)
    | DuplicateIdx(lineNo: nat, line: string)

  /** The Hash a run of lines builds, the line counter after it, and whether
      the run ended with an exception. */
  datatype Parsed<V> = Parsed(hash: Hash<V>, linesIn: nat, outcome: Outcome<ParseError>)

  /** `csv_file_name.sub(/.csv$/, '.xml')`: the leftmost match of any
      character other than a line break followed by "csv" at the end of a
      line is replaced by ".xml". */
  function OutputName(csvFileName: string): (r: string)
    ensures |r| == |csvFileName|
  {
    SubCsvFrom(csvFileName, 0)
  }

  predicate CsvMatchAt(s: string, p: nat)
  {
    p + 4 <= |s| && s[p] != '\n' && s[p + 1..p + 4] == "csv" && (p + 4 == |s| || s[p + 4] == '\n')
  }

  function SubCsvFrom(s: string, p: nat): (r: string)
    requires p <= |s|
    ensures |r| == |s|
    decreases |s| - p
  {
    if p + 4 > |s| then s
    else if CsvMatchAt(s, p) then s[..p] + ".xml" + s[p + 4..]
    else SubCsvFrom(s, p + 1)
  }

  /** On a one-line file name ending in "csv" after some other character,
      that character and "csv" become ".xml"; so "list.csv" becomes
      "list.xml", and "listcsv" becomes "lis.xml". */
  lemma OutputNameOfCsv(base: string, c: char)
    requires '\n' !in base && c != '\n'
    ensures OutputName(base + [c] + "csv") == base + ".xml"
  {
    var s := base + [c] + "csv";
    forall p | 0 <= p < |base| ensures !CsvMatchAt(s, p) {
      assert s[p + 4] in base || s[p + 4] == c || s[p + 4] in "csv";
    }
    SubCsvSkip(s, 0, |base|);
    assert s[|base| + 1..|base| + 4] == "csv";
    assert CsvMatchAt(s, |base|);
    assert s[..|base|] == base;
  }

  /** A name with no match is left as it is. */
  lemma OutputNameWithoutCsv(s: string)
    requires forall i | 0 <= i <= |s| - 4 :: !CsvMatchAt(s, i)
    ensures OutputName(s) == s
  {
    if |s| >= 4 {
      SubCsvSkip(s, 0, |s| - 4);
      assert !CsvMatchAt(s, |s| - 4);
    }
  }

  /** The leftmost match is the one replaced. */
  lemma OutputNameLeftmost(s: string, q: nat)
    requires CsvMatchAt(s, q)
    requires forall i | 0 <= i < q :: !CsvMatchAt(s, i)
    ensures OutputName(s) == s[..q] + ".xml" + s[q + 4..]
  {
    SubCsvSkip(s, 0, q);
  }

  /** The search moves past positions where nothing matches. */
  lemma {:induction false} SubCsvSkip(s: string, p: nat, q: nat)
    requires p <= q <= |s| - 4
    requires forall i | p <= i < q :: !CsvMatchAt(s, i)
    ensures SubCsvFrom(s, p) == SubCsvFrom(s, q)
    decreases q - p
  {
    if p < q {
      SubCsvSkip(s, p + 1, q);
    }
  }

  // ----------------------------------------------------------------------
  // The text written

  /** The lines, each followed by a line break. */
  function Lines(ls: seq<string>): string
  {
    if ls == [] then "" else ls[0] + "\n" + Lines(ls[1..])
  }

  /** The number of line breaks in `s`. */
  function LineBreaks(s: string): nat
  {
    if s == [] then 0 else (if s[0] == '\n' then 1 else 0) + LineBreaks(s[1..])
  }

  lemma {:induction false} LineBreaksAppend(a: string, b: string)
    ensures LineBreaks(a + b) == LineBreaks(a) + LineBreaks(b)
  {
    if a == [] {
      assert a + b == b;
    } else {
      assert (a + b)[0] == a[0] && (a + b)[1..] == a[1..] + b;
      LineBreaksAppend(a[1..], b);
    }
  }

  lemma {:induction false} LineBreaksNone(a: string)
    requires '\n' !in a
    ensures LineBreaks(a) == 0
  {
    if a != [] {
      LineBreaksNone(a[1..]);
    }
  }

  predicate SingleLines(ls: seq<string>)
  {
    forall i | 0 <= i < |ls| :: '\n' !in ls[i]
  }

  /** Lines without line breaks of their own give one line break each. */
  lemma {:induction false} LineBreaksOfLines(ls: seq<string>)
    requires SingleLines(ls)
    ensures LineBreaks(Lines(ls)) == |ls|
  {
    if ls != [] {
      LineBreaksOfLines(ls[1..]);
      LineBreaksAppend(ls[0] + "\n", Lines(ls[1..]));
      LineBreaksAppend(ls[0], "\n");
      LineBreaksNone(ls[0]);
      assert LineBreaks("\n") == 1 + LineBreaks([]);
    }
  }

  const Declaration: string := "<?xml version='1.0' encoding='utf-8'?>"

  /** Toh2xml writes a `<text>` element per entry; ForwardThinkingConverter,
      its subclass, overrides the three render methods to write `<uri>`
      elements inside `<uris>`. */
  datatype Style = Plain | ForwardThinking

  function HeaderText(style: Style): string
  {
    match style
    case Plain => Lines([Declaration, "<lod>"])
    case ForwardThinking => Lines([Declaration, "<lod>", "  <uris xmlns:eft-toh=" + "'http://purl.84000.co/toh'>"])
  }

  function ItemText(style: Style, key: string, val: string): string
  {
    match style
    case Plain =>
      Lines(["    <text key='toh" + key + "'>", "        <idno type='bdrc' uri='" + val + "'/>", "    </text>"])
    case ForwardThinking =>
      Lines(["    <uri id='eft-toh:toh" + key + "'>" + val + "</uri>"])
  }

  function FooterText(style: Style): string
  {
    match style
    case Plain => Lines(["</lod>"])
    case ForwardThinking => Lines(["  </uris>", "</lod>"])
  }

  /** What `render_xml_item` adds to `@lines_out`. */
  function ItemCount(style: Style): nat
  {
    match style
    case Plain => 3
    case ForwardThinking => 1
  }

  /** What `items` entries add to `@lines_out`: the item count per entry,
      written per style so that it stays linear in `items`. */
  function ItemsLines(style: Style, items: nat): (n: nat)
    ensures n == ItemCount(style) * items
  {
    match style
    case Plain => 3 * items
    case ForwardThinking => items
  }

  /** `@lines_out` after a file of `items` entries: 3 for the header, the
      item count per entry and 1 for the footer. */
  function LinesOut(style: Style, items: nat): nat
  {
    3 + ItemsLines(style, items) + 1
  }

  /** The items for the keys, in their order. */
  function ItemsText(style: Style, keys: seq<string>, table: map<string, string>): string
    requires Covers(keys, table)
  {
    if keys == [] then ""
    else
      var last := keys[|keys| - 1];
      ItemsText(style, keys[..|keys| - 1], table) + ItemText(style, last, table[last])
  }

  /** The whole XML file for a Hash. */
  function XmlText(style: Style, h: Hash<string>): string
    requires Covers(h.keys, h.table)
  {
    HeaderText(style) + ItemsText(style, h.keys, h.table) + FooterText(style)
  }

  /** A prefix of covered keys is covered. */
  lemma CoversPrefix<V>(keys: seq<string>, table: map<string, V>, i: nat)
    requires Covers(keys, table) && i <= |keys|
    ensures Covers(keys[..i], table)
  {
    forall k | k in keys[..i] ensures k in table {
      var j :| 0 <= j < i && keys[..i][j] == k;
      assert keys[j] == k;
    }
  }

  /** The items of one more key. */
  lemma ItemsTextSnoc(style: Style, keys: seq<string>, table: map<string, string>, i: nat)
    requires Covers(keys, table) && i < |keys|
    ensures Covers(keys[..i], table) && Covers(keys[..i + 1], table)
    ensures ItemsText(style, keys[..i + 1], table) ==
      ItemsText(style, keys[..i], table) + ItemText(style, keys[i], table[keys[i]])
  {
    CoversPrefix(keys, table, i);
    CoversPrefix(keys, table, i + 1);
    assert keys[..i + 1][..i] == keys[..i];
  }

  /** Keys and values without line breaks. */
  predicate OneLineEntries(keys: seq<string>, table: map<string, string>)
    requires Covers(keys, table)
  {
    forall k | k in keys :: '\n' !in k && '\n' !in table[k]
  }

  /** Each item adds to `@lines_out` the number of lines it writes. */
  lemma ItemLineBreaks(style: Style, key: string, val: string)
    requires '\n' !in key && '\n' !in val
    ensures LineBreaks(ItemText(style, key, val)) == ItemCount(style)
  {
    match style
    case Plain =>
      assert '\n' !in "    <text key='toh" && '\n' !in "'>";
      assert '\n' !in "        <idno type='bdrc' uri='" && '\n' !in "'/>";
      assert '\n' !in "    </text>";
      LineBreaksOfLines(["    <text key='toh" + key + "'>", "        <idno type='bdrc' uri='" + val + "'/>", "    </text>"]);
    case ForwardThinking =>
      assert '\n' !in "    <uri id='eft-toh:toh" && '\n' !in "'>" && '\n' !in "</uri>";
      LineBreaksOfLines(["    <uri id='eft-toh:toh" + key + "'>" + val + "</uri>"]);
  }

  lemma {:induction false} ItemsLineBreaks(style: Style, keys: seq<string>, table: map<string, string>)
    requires Covers(keys, table) && OneLineEntries(keys, table)
    ensures LineBreaks(ItemsText(style, keys, table)) == ItemsLines(style, |keys|)
  {
    if keys != [] {
      var init := keys[..|keys| - 1];
      var last := keys[|keys| - 1];
      assert forall k | k in init :: k in keys;
      ItemsLineBreaks(style, init, table);
      ItemLineBreaks(style, last, table[last]);
      var front, item := ItemsText(style, init, table), ItemText(style, last, table[last]);
      LineBreaksAppend(front, item);
    }
  }

  /** The header writes two lines, three for ForwardThinking. */
  lemma HeaderLineBreaks(style: Style)
    ensures LineBreaks(HeaderText(style)) == if style == Plain then 2 else 3
  {
    assert '\n' !in Declaration && '\n' !in "<lod>";
    match style
    case Plain =>
      LineBreaksOfLines([Declaration, "<lod>"]);
    case ForwardThinking =>
      assert '\n' !in "  <uris xmlns:eft-toh=" && '\n' !in "'http://purl.84000.co/toh'>";
      LineBreaksOfLines([Declaration, "<lod>", "  <uris xmlns:eft-toh=" + "'http://purl.84000.co/toh'>"]);
  }

  /** The footer writes one line, two for ForwardThinking. */
  lemma FooterLineBreaks(style: Style)
    ensures LineBreaks(FooterText(style)) == if style == Plain then 1 else 2
  {
    assert '\n' !in "</lod>";
    match style
    case Plain =>
      LineBreaksOfLines(["</lod>"]);
    case ForwardThinking =>
      assert '\n' !in "  </uris>";
      LineBreaksOfLines(["  </uris>", "</lod>"]);
  }

  /** `@lines_out` is off by one: the plain header writes two lines and
      counts three, and the ForwardThinking footer writes two and counts one. */
  lemma LinesOutMiscount(style: Style, h: Hash<string>)
    requires Covers(h.keys, h.table) && OneLineEntries(h.keys, h.table)
    ensures style == Plain ==> LineBreaks(XmlText(style, h)) + 1 == LinesOut(style, |h.keys|)
    ensures style == ForwardThinking ==> LineBreaks(XmlText(style, h)) == LinesOut(style, |h.keys|) + 1
  {
    var header, items, footer := HeaderText(style), ItemsText(style, h.keys, h.table), FooterText(style);
    HeaderLineBreaks(style);
    FooterLineBreaks(style);
    ItemsLineBreaks(style, h.keys, h.table);
    LineBreaksAppend(header, items);
    LineBreaksAppend(header + items, footer);
  }

  /** What `parse_csv_line` does to a Hash, given the incremented line
      counter and the line. */
  type LineParser<!V> = (Hash<V>, nat, string) -> Result<Hash<V>, ParseError>

  /** `parse_csv_file`: the lines read one by one with `parse`, from a Hash
      `h` and a counter `linesIn`, up to the first exception. Without one,
      every line is counted; with one, the counter names the line that
      raised it and the Hash is as that line found it. */
  function ReadLines<V>(parse: LineParser<V>, h: Hash<V>, linesIn: nat, lines: seq<string>): (p: Parsed<V>)
    ensures p.outcome.Pass? ==> p.linesIn == linesIn + |lines|
    decreases |lines|
  {
    if lines == [] then Parsed(h, linesIn, Pass)
    else
      match parse(h, linesIn + 1, lines[0])
      case Err(e) => Parsed(h, linesIn + 1, Fail(e))
      case Ok(h') => ReadLines(parse, h', linesIn + 1, lines[1..])
  }

  /** An exception comes from the line the counter names, parsed against
      the Hash the run ends with. */
  lemma {:induction false} ReadLinesFailure<V>(parse: LineParser<V>, h: Hash<V>, linesIn: nat, lines: seq<string>)
    requires ReadLines(parse, h, linesIn, lines).outcome.Fail?
    ensures var p := ReadLines(parse, h, linesIn, lines);
      linesIn < p.linesIn <= linesIn + |lines| &&
      parse(p.hash, p.linesIn, lines[p.linesIn - linesIn - 1]) == Err(p.outcome.error)
    decreases |lines|
  {
    var res := parse(h, linesIn + 1, lines[0]);
    if res.Ok? {
      var p := ReadLines(parse, res.value, linesIn + 1, lines[1..]);
      ReadLinesFailure(parse, res.value, linesIn + 1, lines[1..]);
      assert lines[1..][p.linesIn - (linesIn + 1) - 1] == lines[p.linesIn - linesIn - 1];
    }
  }

  /** One line further into the file. */
  lemma ReadLinesStep<V>(parse: LineParser<V>, h: Hash<V>, lines: seq<string>, i: nat)
    requires i < |lines|
    ensures var res := parse(h, i + 1, lines[i]);
      ReadLines(parse, h, i, lines[i..]) ==
        if res.Ok? then ReadLines(parse, res.value, i + 1, lines[i + 1..]) else Parsed(h, i + 1, Fail(res.error))
  {
    assert lines[i..][0] == lines[i] && lines[i..][1..] == lines[i + 1..];
  }

  // ----------------------------------------------------------------------
  // Toh2xml#parse_csv_line

  /** No value is stored under two keys (`has_value?` rejects the second). */
  predicate ValuesDistinct(h: Hash<string>)
  {
    forall a, b | a in h.table && b in h.table && a != b :: h.table[a] != h.table[b]
  }

  /** The CSV header pair is stored. */
  predicate HasTitlePair(h: Hash<string>)
  {
    "toh" in h.table && h.table["toh"] == "id"
  }

  /** What the Toh2xml Hash always satisfies. */
  ghost predicate TohInvariant(h: Hash<string>)
  {
    h.Valid() && ValuesDistinct(h) && !HasTitlePair(h)
  }

  /** Every entry of `h` is an entry of `h'`. */
  predicate Extends<V(==)>(h: Hash<V>, h': Hash<V>)
  {
    forall k | k in h.table :: k in h'.table && h'.table[k] == h.table[k]
  }

  /** `parse_csv_line`: the line is stripped in place, split at commas into
      exactly two fields, and the quotes around each field removed; a key
      already present and then a value already present are rejected, and
      the CSV header pair ("toh", "id") is not stored. `lineNo` is the
      incremented `@lines_in`. */
  function TohLine(h: Hash<string>, lineNo: nat, line: string): (r: Result<Hash<string>, ParseError>)
    ensures r.Err? ==> r.error.NoMethodError? || r.error.lineNo == lineNo
    ensures r.Ok? ==> Extends(h, r.value)
    ensures r.Ok? && TohInvariant(h) ==> TohInvariant(r.value)
  {
    match StripBang(line)
    case None => Err(NoMethodError)
    case Some(stripped) =>
      var vals := Split(stripped);
      if |vals| != 2 then Err(UnexpectedFormat(lineNo, stripped))
      else
        var key := Unquote(vals[0]);
        var val := Unquote(vals[1]);
        if key in h.table then Err(DuplicateKey(lineNo, stripped))
        else if val in h.table.Values then Err(DuplicateValue(lineNo, stripped))
        else if [key, val] == ["toh", "id"] then Ok(h)
        else
          assert forall a | a in h.table :: h.table[a] != val;
          Ok(h.Put(key, val))
  }

  /** A field in double quotes. */
  function Quoted(s: string): string
  {
    "\"" + s + "\""
  }

  /** Two quoted fields, a comma between them: a Toh2xml CSV line without
      its line break. */
  function QuotedPair(key: string, val: string): string
  {
    Quoted(key) + "," + Quoted(val)
  }

  /** Quotes put around a field are the ones the substitution removes. */
  lemma UnquoteOfQuoted(s: string)
    ensures Unquote(Quoted(s)) == s
  {
    UnquoteQuoted("", s, "");
    assert "" + "\"" + s + "\"" + "" == Quoted(s);
  }

  /** `strip!` on a line whose text neither starts nor ends with white
      space, followed by a run of white space, removes exactly that run. */
  lemma StripBangOfLine(body: string, eol: string)
    requires body != [] && !IsStripSpace(body[0]) && !IsStripSpace(body[|body| - 1])
    requires eol != [] && forall i | 0 <= i < |eol| :: IsStripSpace(eol[i])
    ensures StripBang(body + eol) == Some(body)
  {
    var s := body + eol;
    assert s[0] == body[0];
    assert TrimLeft(s, StripSpace) == s;
    TrimRightSuffix(body, eol, StripSpace);
  }

  /** Two quoted comma-free fields split into exactly those two. */
  lemma SplitOfQuotedPair(key: string, val: string)
    requires ',' !in key && ',' !in val
    ensures Split(QuotedPair(key, val)) == [Quoted(key), Quoted(val)]
  {
    var fs := [Quoted(key), Quoted(val)];
    assert fs[1..] == [Quoted(val)];
    assert Join(fs) == QuotedPair(key, val);
    assert ',' !in Quoted(key) && ',' !in Quoted(val);
    SplitOfJoin(fs);
  }

  /** On a well-formed line, parse_csv_line stores the pair unless one of
      its fields is already there or it is the CSV header pair. */
  lemma TohLineOfQuotedPair(h: Hash<string>, lineNo: nat, key: string, val: string, eol: string)
    requires ',' !in key && ',' !in val
    requires eol != [] && forall i | 0 <= i < |eol| :: IsStripSpace(eol[i])
    ensures TohLine(h, lineNo, QuotedPair(key, val) + eol) ==
      if key in h.table then Err(DuplicateKey(lineNo, QuotedPair(key, val)))
      else if val in h.table.Values then Err(DuplicateValue(lineNo, QuotedPair(key, val)))
      else if key == "toh" && val == "id" then Ok(h)
      else Ok(h.Put(key, val))
  {
    var body := QuotedPair(key, val);
    assert body[0] == '"' && body[|body| - 1] == '"';
    StripBangOfLine(body, eol);
    SplitOfQuotedPair(key, val);
    UnquoteOfQuoted(key);
    UnquoteOfQuoted(val);
  }

  /** A line of comma-free fields whose text has no white space at either
      end, followed by white space: it is rejected unless it has exactly two
      fields once the trailing empty ones are dropped; otherwise the two
      fields, unquoted, go through the key, value and column-name checks. */
  lemma TohLineOfFields(h: Hash<string>, lineNo: nat, fs: seq<string>, eol: string)
    requires |fs| >= 1 && forall i | 0 <= i < |fs| :: ',' !in fs[i]
    requires Join(fs) != [] && !IsStripSpace(Join(fs)[0]) && !IsStripSpace(Join(fs)[|Join(fs)| - 1])
    requires eol != [] && forall i | 0 <= i < |eol| :: IsStripSpace(eol[i])
    ensures var text := Join(fs);
      TohLine(h, lineNo, text + eol) ==
        if |DropTrailingEmpty(fs)| != 2 then Err(UnexpectedFormat(lineNo, text))
        else if Unquote(fs[0]) in h.table then Err(DuplicateKey(lineNo, text))
        else if Unquote(fs[1]) in h.table.Values then Err(DuplicateValue(lineNo, text))
        else if Unquote(fs[0]) == "toh" && Unquote(fs[1]) == "id" then Ok(h)
        else Ok(h.Put(Unquote(fs[0]), Unquote(fs[1])))
  {
    StripBangOfLine(Join(fs), eol);
    SplitOfFields(fs);
  }

  /** Fields without double quotes stand for themselves. */
  lemma TohLineOfPlainFields(h: Hash<string>, lineNo: nat, fs: seq<string>, eol: string)
    requires |fs| >= 1 && forall i | 0 <= i < |fs| :: ',' !in fs[i]
    requires Join(fs) != [] && !IsStripSpace(Join(fs)[0]) && !IsStripSpace(Join(fs)[|Join(fs)| - 1])
    requires eol != [] && forall i | 0 <= i < |eol| :: IsStripSpace(eol[i])
    requires |DropTrailingEmpty(fs)| == 2 && '"' !in fs[0] && '"' !in fs[1]
    ensures var text := Join(fs);
      TohLine(h, lineNo, text + eol) ==
        if fs[0] in h.table then Err(DuplicateKey(lineNo, text))
        else if fs[1] in h.table.Values then Err(DuplicateValue(lineNo, text))
        else if fs[0] == "toh" && fs[1] == "id" then Ok(h)
        else Ok(h.Put(fs[0], fs[1]))
  {
    TohLineOfFields(h, lineNo, fs, eol);
    UnquoteOfPlain(fs[0]);
    UnquoteOfPlain(fs[1]);
  }

  /** The CSV column-name line, unquoted, is not stored. */
  lemma TohLineOfTitle(h: Hash<string>, lineNo: nat)
    requires "toh" !in h.table && "id" !in h.table.Values
    ensures TohLine(h, lineNo, "toh,id\n") == Ok(h)
  {
    var fs := ["toh", "id"];
    assert Join(fs) + "\n" == "toh,id\n";
    assert DropTrailingEmpty(fs) == fs;
    assert '"' !in fs[0] && '"' !in fs[1];
    TohLineOfPlainFields(h, lineNo, fs, "\n");
  }

  /** `1,W1,,` has two fields once its trailing empty ones are dropped, and
      is stored. */
  lemma TohLineOfTrailingEmpty(h: Hash<string>, lineNo: nat)
    requires "1" !in h.table && "W1" !in h.table.Values
    ensures TohLine(h, lineNo, "1,W1,,\n") == Ok(h.Put("1", "W1"))
  {
    var fs := ["1", "W1", "", ""];
    assert Join(fs) + "\n" == "1,W1,,\n";
    assert DropTrailingEmpty(fs) == ["1", "W1"];
    assert '"' !in fs[0] && '"' !in fs[1];
    TohLineOfPlainFields(h, lineNo, fs, "\n");
  }

  /** `1,R1,W1,,` has three fields once its trailing empty ones are dropped,
      and is rejected. */
  lemma TohLineOfThreeFields(h: Hash<string>, lineNo: nat)
    ensures TohLine(h, lineNo, "1,R1,W1,,\n") == Err(UnexpectedFormat(lineNo, "1,R1,W1,,"))
  {
    var fs := ["1", "R1", "W1", "", ""];
    assert Join(fs) == "1,R1,W1,,";
    assert Join(fs) + "\n" == "1,R1,W1,,\n";
    assert DropTrailingEmpty(fs) == ["1", "R1", "W1"];
    TohLineOfFields(h, lineNo, fs, "\n");
  }

  /** A last line without a line break and without white space around it
      has nothing for `strip!` to remove, and the conversion fails. */
  lemma TohLineOfBareLastLine(h: Hash<string>, lineNo: nat, key: string, val: string)
    ensures TohLine(h, lineNo, QuotedPair(key, val)) == Err(NoMethodError)
  {
    var body := QuotedPair(key, val);
    assert body[0] == '"' && body[|body| - 1] == '"';
  }

  /** A run of TohLine only adds entries, and keeps the Hash's invariant. */
  lemma {:induction false} TohLinesKeep(h: Hash<string>, linesIn: nat, lines: seq<string>)
    ensures Extends(h, ReadLines(TohLine, h, linesIn, lines).hash)
    ensures TohInvariant(h) ==> TohInvariant(ReadLines(TohLine, h, linesIn, lines).hash)
    decreases |lines|
  {
    if lines != [] {
      var first := TohLine(h, linesIn + 1, lines[0]);
      if first.Ok? {
        TohLinesKeep(first.value, linesIn + 1, lines[1..]);
      }
    }
  }



  // ----------------------------------------------------------------------
  // Toh2xml and ForwardThinkingConverter

  /** A Toh2xml converter (style Plain) or a ForwardThinkingConverter. */
  class TohConverter {
    const style: Style
    var inputFileName: string
    var linesIn: nat
    var outputFileName: string
    var linesOut: nat
    /** `@map` */
    var hash: Hash<string>
    /** The XML file written. */
    var output: string

    ghost predicate Valid()
      reads this`hash
    {
      TohInvariant(hash)
    }

    /** `new`: an empty Hash. */
    constructor (style: Style)
      ensures this.style == style && hash == Hash([], map[]) && Valid()
      ensures inputFileName == "" && linesIn == 0 && outputFileName == "" && linesOut == 0 && output == ""
    {
      this.style := style;
      inputFileName, linesIn := "", 0;
      outputFileName, linesOut := "", 0;
      hash := Hash([], map[]);
      output := "";
    }

    /** `Toh2xml.convert(csv_file_name:)`: a new converter of the style,
        run on the file. */
    static method ConvertFile(style: Style, csvFileName: string, lines: seq<string>)
      returns (c: TohConverter, r: Outcome<ParseError>)
      ensures fresh(c) && c.style == style && c.Valid()
      ensures var p := ReadLines(TohLine, Hash([], map[]), 0, lines);
        c.inputFileName == csvFileName && c.linesIn == p.linesIn && r == p.outcome &&
        (r.Fail? ==> c.hash == p.hash && c.outputFileName == "" && c.linesOut == 0 && c.output == "") &&
        (r.Pass? ==> c.hash == SortByKey(p.hash) && c.outputFileName == OutputName(csvFileName) &&
                     c.output == XmlText(style, c.hash) && c.linesOut == LinesOut(style, |c.hash.keys|))
    {
      c := new TohConverter(style);
      r := c.Convert(csvFileName, lines);
    }

    /** `convert`: parse the file, sort the Hash by `to_i` of its keys and
        render the XML file, named after the CSV file. An exception while
        parsing ends the conversion. */
    method Convert(csvFileName: string, lines: seq<string>) returns (r: Outcome<ParseError>)
      requires Valid()
      modifies this
      ensures Valid()
      ensures var p := ReadLines(TohLine, old(hash), 0, lines);
        inputFileName == csvFileName && linesIn == p.linesIn && r == p.outcome &&
        (r.Fail? ==> hash == p.hash && outputFileName == old(outputFileName) &&
                     linesOut == old(linesOut) && output == old(output)) &&
        (r.Pass? ==> hash == SortByKey(p.hash) && outputFileName == OutputName(csvFileName) &&
                     output == XmlText(style, hash) && linesOut == LinesOut(style, |hash.keys|))
    {
      ghost var p := ReadLines(TohLine, old(hash), 0, lines);
      r := ParseCsvFile(csvFileName, lines);
      assert hash == p.hash && linesIn == p.linesIn && r == p.outcome;
      if r.Fail? {
        return;
      }
      ghost var parsedIn := linesIn;
      SortMap();
      ghost var sorted := hash;
      assert sorted == SortByKey(p.hash);
      RenderXmlFile(OutputName(csvFileName));
      assert inputFileName == csvFileName && linesIn == parsedIn && hash == sorted;
    }

    /** `parse_csv_file`: every line in turn, from a counter of 0. */
    method ParseCsvFile(fileName: string, lines: seq<string>) returns (r: Outcome<ParseError>)
      requires Valid()
      modifies this`inputFileName, this`linesIn, this`hash
      ensures Valid()
      ensures inputFileName == fileName
      ensures var p := ReadLines(TohLine, old(hash), 0, lines);
        hash == p.hash && linesIn == p.linesIn && r == p.outcome
    {
      inputFileName := fileName;
      linesIn := 0;
      var i := 0;
      assert lines[i..] == lines;
      while i < |lines|
        invariant 0 <= i <= |lines| && linesIn == i && Valid()
        invariant inputFileName == fileName
        invariant ReadLines(TohLine, hash, i, lines[i..]) == ReadLines(TohLine, old(hash), 0, lines)
        decreases |lines| - i
      {
        ReadLinesStep(TohLine, hash, lines, i);
        ghost var res := TohLine(hash, i + 1, lines[i]);
        r := ParseCsvLine(lines[i]);
        if r.Fail? {
          assert res.Err?;
          return;
        }
        assert res.Ok? && hash == res.value;
        i := i + 1;
      }
      assert lines[i..] == [];
      r := Pass;
    }

    /** `parse_csv_line`, on the converter's Hash and line counter. */
    method ParseCsvLine(line: string) returns (r: Outcome<ParseError>)
      requires Valid()
      modifies this`linesIn, this`hash
      ensures Valid()
      ensures linesIn == old(linesIn) + 1
      ensures match TohLine(old(hash), linesIn, line)
        case Ok(h) => r == Pass && hash == h
        case Err(e) => r == Fail(e) && hash == old(hash)
    {
      linesIn := linesIn + 1;
      var stripped := StripBang(line);
      if stripped.None? {
        return Fail(NoMethodError);
      }
      var vals := Split(stripped.value);
      if |vals| != 2 {
        return Fail(UnexpectedFormat(linesIn, stripped.value));
      }
      var key, val := Unquote(vals[0]), Unquote(vals[1]);
      if key in hash.table {
        return Fail(DuplicateKey(linesIn, stripped.value));
      }
      if val in hash.table.Values {
        return Fail(DuplicateValue(linesIn, stripped.value));
      }
      if [key, val] != ["toh", "id"] {
        hash := hash.Put(key, val);
      }
      r := Pass;
    }

    /** `@map = @map.sort_by { |key, val| key.to_i }.to_h` */
    method SortMap()
      requires Valid()
      modifies this`hash
      ensures Valid() && hash == SortByKey(old(hash))
    {
      hash := SortByKey(hash);
    }

    /** `render_xml_file`: the file is created empty, and the header, an
        item per entry in the Hash's order, and the footer are written. */
    method RenderXmlFile(fileName: string)
      requires Valid()
      modifies this`outputFileName, this`linesOut, this`output
      ensures outputFileName == fileName
      ensures output == XmlText(style, hash) && linesOut == LinesOut(style, |hash.keys|)
    {
      outputFileName := fileName;
      linesOut := 0;
      output := "";
      RenderXmlHeader();
      ghost var header := output;
      RenderXmlItems(hash.keys, hash.table);
      ghost var items := output;
      RenderXmlFooter();
      AppendedThree([], HeaderText(style), header, ItemsText(style, hash.keys, hash.table), items, FooterText(style), output);
    }

    /** `@map.each { |key, val| ... item(key, val) }`: an item per key, in
        the given order. */
    method RenderXmlItems(keys: seq<string>, table: map<string, string>)
      requires Covers(keys, table)
      modifies this`output, this`linesOut
      ensures output == old(output) + ItemsText(style, keys, table)
      ensures linesOut == old(linesOut) + ItemsLines(style, |keys|)
    {
      CoversPrefix(keys, table, 0);
      var i := 0;
      while i < |keys|
        invariant 0 <= i <= |keys| && Covers(keys[..i], table)
        invariant output == old(output) + ItemsText(style, keys[..i], table)
        invariant linesOut == old(linesOut) + ItemsLines(style, i)
        decreases |keys| - i
      {
        var key := keys[i];
        ItemsTextSnoc(style, keys, table, i);
        ghost var before := output;
        RenderXmlItem(key, table[key]);
        Appended(old(output), ItemsText(style, keys[..i], table), before, ItemText(style, key, table[key]), output);
        i := i + 1;
      }
      assert keys[..i] == keys;
    }

    method RenderXmlHeader()
      modifies this`output, this`linesOut
      ensures output == old(output) + HeaderText(style) && linesOut == old(linesOut) + 3
    {
      output := output + HeaderText(style);
      linesOut := linesOut + 3;
    }

    method RenderXmlItem(key: string, val: string)
      modifies this`output, this`linesOut
      ensures output == old(output) + ItemText(style, key, val)
      ensures linesOut == old(linesOut) + ItemCount(style)
    {
      output := output + ItemText(style, key, val);
      match style
      case Plain => linesOut := linesOut + 3;
      case ForwardThinking => linesOut := linesOut + 1;
    }

    method RenderXmlFooter()
      modifies this`output, this`linesOut
      ensures output == old(output) + FooterText(style) && linesOut == old(linesOut) + 1
    {
      output := output + FooterText(style);
      linesOut := linesOut + 1;
    }
  }

  // ----------------------------------------------------------------------
  // HallowmasConverter#parse_csv_line

  const HallowmasHeaderLine: string := "idx,rkts,abstractI,abstractT,expr"

  const RefTypes: seq<string> := ["bdrc-idx", "rkts-work-id", "bdrc-work-id", "bdrc-tibetan-id", "bdrc-derge-id"]

  /** Every row has a field per reference type and is stored under its
      first field. */
  predicate RowsKeyed(h: Hash<seq<string>>)
  {
    forall k | k in h.table :: |h.table[k]| == |RefTypes| && h.table[k][0] == k
  }

  /** What the HallowmasConverter Hash always satisfies: the column-name
      row is never stored. */
  ghost predicate HallowmasInvariant(h: Hash<seq<string>>)
  {
    h.Valid() && RowsKeyed(h) && "idx" !in h.table
  }

  /** HallowmasConverter's `parse_csv_line`: the line break is chomped; the
      first line must be the column-name line and is not stored; every
      later line is split at commas, the quotes removed from each field,
      and must have a field per reference type; a first field already
      present is rejected, and a row whose first field is "idx" is not
      stored. `lineNo` is the incremented `@lines_in`. */
  function HallowmasLine(h: Hash<seq<string>>, lineNo: nat, line: string): (r: Result<Hash<seq<string>>, ParseError>)
    ensures r.Err? ==> !r.error.NoMethodError? && r.error.lineNo == lineNo
    ensures lineNo == 1 ==> (r.Ok? <==> Chomp(line) == HallowmasHeaderLine) && (r.Ok? ==> r.value == h)
    ensures r.Ok? ==> Extends(h, r.value)
    ensures r.Ok? && HallowmasInvariant(h) ==> HallowmasInvariant(r.value)
  {
    var text := Chomp(line);
    if lineNo == 1 then
      if text != HallowmasHeaderLine then Err(WrongHeader(lineNo, text)) else Ok(h)
    else
      var vals := UnquoteAll(Split(text));
      if |vals| != |RefTypes| then Err(UnexpectedFormat(lineNo, text))
      else
        var idx := vals[0];
        if idx in h.table then Err(DuplicateIdx(lineNo, text))
        else if idx == "idx" then Ok(h)
        else Ok(h.Put(idx, vals))
  }

  function QuoteAll(fields: seq<string>): (r: seq<string>)
    ensures |r| == |fields| && forall i | 0 <= i < |r| :: r[i] == Quoted(fields[i])
  {
    seq(|fields|, i requires 0 <= i < |fields| => Quoted(fields[i]))
  }

  /** The join ends with the last field. */
  lemma {:induction false} JoinEndsWithLast(fields: seq<string>)
    requires |fields| >= 1
    ensures var last := fields[|fields| - 1];
      |last| <= |Join(fields)| && Join(fields)[|Join(fields)| - |last|..] == last
  {
    if |fields| > 1 {
      JoinEndsWithLast(fields[1..]);
    }
  }

  /** A line of quoted fields ends in a quote, so chomp removes exactly its
      line break. */
  lemma ChompOfQuotedRow(fields: seq<string>)
    requires |fields| >= 1
    ensures Chomp(Join(QuoteAll(fields)) + "\n") == Join(QuoteAll(fields))
  {
    var qs := QuoteAll(fields);
    var text := Join(qs);
    JoinEndsWithLast(qs);
    assert text[|text| - 1] == '"';
    var line := text + "\n";
    assert line[..|line| - 1] == text;
  }

  /** A line of quoted comma-free fields is parsed into exactly those fields. */
  lemma QuotedRowFields(fields: seq<string>)
    requires |fields| >= 1
    requires forall i | 0 <= i < |fields| :: ',' !in fields[i]
    ensures UnquoteAll(Split(Join(QuoteAll(fields)))) == fields
  {
    var qs := QuoteAll(fields);
    forall i | 0 <= i < |qs| ensures ',' !in qs[i] {
      QuotedNoComma(fields[i]);
    }
    assert |qs[|qs| - 1]| >= 2;
    SplitOfJoin(qs);
    forall i | 0 <= i < |fields| ensures Unquote(qs[i]) == fields[i] {
      UnquoteOfQuoted(fields[i]);
    }
  }

  lemma QuotedNoComma(s: string)
    requires ',' !in s
    ensures ',' !in Quoted(s)
  {
  }

  /** On a well-formed row after the first line, parse_csv_line stores the
      row under its first field unless that field is already there or is
      "idx". */
  lemma HallowmasLineOfQuotedRow(h: Hash<seq<string>>, lineNo: nat, fields: seq<string>)
    requires lineNo != 1 && |fields| >= 1
    requires forall i | 0 <= i < |fields| :: ',' !in fields[i]
    ensures var text := Join(QuoteAll(fields));
      HallowmasLine(h, lineNo, text + "\n") ==
        if |fields| != |RefTypes| then Err(UnexpectedFormat(lineNo, text))
        else if fields[0] in h.table then Err(DuplicateIdx(lineNo, text))
        else if fields[0] == "idx" then Ok(h)
        else Ok(h.Put(fields[0], fields))
  {
    ChompOfQuotedRow(fields);
    QuotedRowFields(fields);
  }

  /** A later line of comma-free fields: it is rejected unless it has a
      field per reference type once the trailing empty ones are dropped;
      otherwise the unquoted first field goes through the duplicate and
      column-name checks and the unquoted row is stored under it. */
  lemma HallowmasLineOfFields(h: Hash<seq<string>>, lineNo: nat, fs: seq<string>)
    requires lineNo != 1 && |fs| >= 1 && forall i | 0 <= i < |fs| :: ',' !in fs[i]
    requires Join(fs) == [] || Join(fs)[|Join(fs)| - 1] != '\r'
    ensures var text := Join(fs);
      HallowmasLine(h, lineNo, text + "\n") ==
        if |DropTrailingEmpty(fs)| != |RefTypes| then Err(UnexpectedFormat(lineNo, text))
        else if Unquote(fs[0]) in h.table then Err(DuplicateIdx(lineNo, text))
        else if Unquote(fs[0]) == "idx" then Ok(h)
        else Ok(h.Put(Unquote(fs[0]), UnquoteAll(fs[..|RefTypes|])))
  {
    var text := Join(fs);
    ChompOfLine(text);
    SplitOfFields(fs);
    var vals := UnquoteAll(Split(text));
    assert vals == UnquoteAll(DropTrailingEmpty(fs));
  }

  /** A row of fields without double quotes is stored as it stands. */
  lemma HallowmasLineOfPlainFields(h: Hash<seq<string>>, lineNo: nat, fs: seq<string>)
    requires lineNo != 1 && |fs| >= 1 && forall i | 0 <= i < |fs| :: ',' !in fs[i]
    requires Join(fs) == [] || Join(fs)[|Join(fs)| - 1] != '\r'
    requires |DropTrailingEmpty(fs)| == |RefTypes|
    requires forall i | 0 <= i < |RefTypes| :: '"' !in fs[i]
    ensures var text := Join(fs);
      HallowmasLine(h, lineNo, text + "\n") ==
        if fs[0] in h.table then Err(DuplicateIdx(lineNo, text))
        else if fs[0] == "idx" then Ok(h)
        else Ok(h.Put(fs[0], fs[..|RefTypes|]))
  {
    HallowmasLineOfFields(h, lineNo, fs);
    forall i | 0 <= i < |RefTypes| ensures Unquote(fs[i]) == fs[i] {
      UnquoteOfPlain(fs[i]);
    }
    assert UnquoteAll(fs[..|RefTypes|]) == fs[..|RefTypes|];
  }

  /** An unquoted row of five fields is stored under its first. */
  lemma HallowmasLineOfUnquoted(h: Hash<seq<string>>, lineNo: nat)
    requires lineNo != 1 && "1" !in h.table
    ensures HallowmasLine(h, lineNo, "1,R1,W1,T1,D1\n") == Ok(h.Put("1", ["1", "R1", "W1", "T1", "D1"]))
  {
    var fs := ["1", "R1", "W1", "T1", "D1"];
    assert Join(fs) + "\n" == "1,R1,W1,T1,D1\n";
    assert DropTrailingEmpty(fs) == fs && fs[..|RefTypes|] == fs;
    assert forall i | 0 <= i < |fs| :: '"' !in fs[i];
    HallowmasLineOfPlainFields(h, lineNo, fs);
  }

  /** Four fields followed by empty ones are too few. */
  lemma HallowmasLineOfFourFields(h: Hash<seq<string>>, lineNo: nat)
    requires lineNo != 1
    ensures HallowmasLine(h, lineNo, "1,R1,W1,T1,,\n") == Err(UnexpectedFormat(lineNo, "1,R1,W1,T1,,"))
  {
    var fs := ["1", "R1", "W1", "T1", "", ""];
    assert Join(fs) == "1,R1,W1,T1,,";
    assert Join(fs) + "\n" == "1,R1,W1,T1,,\n";
    assert DropTrailingEmpty(fs) == ["1", "R1", "W1", "T1"];
    HallowmasLineOfFields(h, lineNo, fs);
  }

  /** A run of HallowmasLine only adds entries, and keeps the Hash's invariant. */
  lemma {:induction false} HallowmasLinesKeep(h: Hash<seq<string>>, linesIn: nat, lines: seq<string>)
    ensures Extends(h, ReadLines(HallowmasLine, h, linesIn, lines).hash)
    ensures HallowmasInvariant(h) ==> HallowmasInvariant(ReadLines(HallowmasLine, h, linesIn, lines).hash)
    decreases |lines|
  {
    if lines != [] {
      var first := HallowmasLine(h, linesIn + 1, lines[0]);
      if first.Ok? {
        HallowmasLinesKeep(first.value, linesIn + 1, lines[1..]);
      }
    }
  }



  /** A file whose first line is not the column-name line fails on line 1. */
  lemma HallowmasLinesWrongHeader(h: Hash<seq<string>>, lines: seq<string>)
    requires |lines| >= 1 && Chomp(lines[0]) != HallowmasHeaderLine
    ensures ReadLines(HallowmasLine, h, 0, lines) == Parsed(h, 1, Fail(WrongHeader(1, Chomp(lines[0]))))
  {
  }

  // ----------------------------------------------------------------------
  // The Hallowmas text written

  const TextRefsOpen: string := "<text-refs xmlns=" + "\"http://read." + "84000.co/ns/1.0\">"

  const HallowmasHeader: string := Lines([Declaration, TextRefsOpen])

  /** The footer as the single-quoted Ruby literal writes it: a backslash
      and an "n", not a line break. */
  const HallowmasFooter: string := "</text-refs>\\n"

  /** `vals[i]` interpolated: nil, past the end, interpolates as "". */
  function ValueAt(vals: seq<string>, i: nat): string
  {
    if i < |vals| then vals[i] else ""
  }

  function RefLine(refType: string, value: string): string
  {
    Lines(["        <ref type='" + refType + "' value='" + value + "'/>"])
  }

  /** The `<ref>` lines of the first `n` reference types. */
  function RefLines(vals: seq<string>, n: nat): string
    requires n <= |RefTypes|
  {
    if n == 0 then "" else RefLines(vals, n - 1) + RefLine(RefTypes[n - 1], ValueAt(vals, n - 1))
  }

  function HallowmasItem(idx: string, vals: seq<string>): string
  {
    Lines(["    <text key='toh" + idx + "'>"]) + RefLines(vals, |RefTypes|) + Lines(["    </text>"])
  }

  /** The `<ref>` lines of a row spelled out: one per reference type, in
      order, with the row's field at the same position. */
  lemma RefLinesOfRow(vals: seq<string>)
    requires |vals| == |RefTypes|
    ensures RefLines(vals, |RefTypes|) ==
      RefLine("bdrc-idx", vals[0]) + RefLine("rkts-work-id", vals[1]) + RefLine("bdrc-work-id", vals[2]) +
      RefLine("bdrc-tibetan-id", vals[3]) + RefLine("bdrc-derge-id", vals[4])
  {
    assert RefTypes[0] == "bdrc-idx" && RefTypes[1] == "rkts-work-id" && RefTypes[2] == "bdrc-work-id";
    assert RefTypes[3] == "bdrc-tibetan-id" && RefTypes[4] == "bdrc-derge-id";
    RefLinesInOrder(vals);
  }

  lemma RefLinesInOrder(vals: seq<string>)
    requires |vals| == |RefTypes|
    ensures RefLines(vals, |RefTypes|) ==
      RefLine(RefTypes[0], vals[0]) + RefLine(RefTypes[1], vals[1]) + RefLine(RefTypes[2], vals[2]) +
      RefLine(RefTypes[3], vals[3]) + RefLine(RefTypes[4], vals[4])
  {
    var r0, r1, r2 := RefLine(RefTypes[0], vals[0]), RefLine(RefTypes[1], vals[1]), RefLine(RefTypes[2], vals[2]);
    var r3, r4 := RefLine(RefTypes[3], vals[3]), RefLine(RefTypes[4], vals[4]);
    assert RefLines(vals, 1) == "" + r0 == r0;
    assert RefLines(vals, 2) == r0 + r1;
    assert RefLines(vals, 3) == r0 + r1 + r2;
    assert RefLines(vals, 4) == r0 + r1 + r2 + r3;
  }

  function HallowmasItems(keys: seq<string>, table: map<string, seq<string>>): string
    requires Covers(keys, table)
  {
    if keys == [] then ""
    else
      var last := keys[|keys| - 1];
      HallowmasItems(keys[..|keys| - 1], table) + HallowmasItem(last, table[last])
  }

  /** The items of one more key. */
  lemma HallowmasItemsSnoc(keys: seq<string>, table: map<string, seq<string>>, i: nat)
    requires Covers(keys, table) && i < |keys|
    ensures Covers(keys[..i], table) && Covers(keys[..i + 1], table)
    ensures HallowmasItems(keys[..i + 1], table) ==
      HallowmasItems(keys[..i], table) + HallowmasItem(keys[i], table[keys[i]])
  {
    CoversPrefix(keys, table, i);
    CoversPrefix(keys, table, i + 1);
    assert keys[..i + 1][..i] == keys[..i];
  }

  function HallowmasXml(h: Hash<seq<string>>): string
    requires Covers(h.keys, h.table)
  {
    HallowmasHeader + HallowmasItems(h.keys, h.table) + HallowmasFooter
  }

  /** `@lines_out` after a file of `items` entries. */
  function HallowmasLinesOut(items: nat): nat
  {
    2 + 7 * items + 1
  }

  /** Row fields without line breaks. */
  predicate OneLineRows(keys: seq<string>, table: map<string, seq<string>>)
    requires Covers(keys, table)
  {
    forall k | k in keys :: '\n' !in k && forall i | 0 <= i < |table[k]| :: '\n' !in table[k][i]
  }

  lemma {:induction false} RefLinesLineBreaks(vals: seq<string>, n: nat)
    requires n <= |RefTypes|
    requires forall i | 0 <= i < |vals| :: '\n' !in vals[i]
    ensures LineBreaks(RefLines(vals, n)) == n
  {
    if n > 0 {
      RefLinesLineBreaks(vals, n - 1);
      var t := RefTypes[n - 1];
      assert '\n' !in "bdrc-idx" && '\n' !in "rkts-work-id" && '\n' !in "bdrc-work-id";
      assert '\n' !in "bdrc-tibetan-id" && '\n' !in "bdrc-derge-id";
      assert '\n' !in t;
      assert '\n' !in "        <ref type='" && '\n' !in "' value='" && '\n' !in "'/>";
      assert '\n' !in ValueAt(vals, n - 1);
      LineBreaksOfLines(["        <ref type='" + t + "' value='" + ValueAt(vals, n - 1) + "'/>"]);
      LineBreaksAppend(RefLines(vals, n - 1), RefLine(t, ValueAt(vals, n - 1)));
    }
  }

  /** Each item adds to `@lines_out` the number of lines it writes. */
  lemma HallowmasItemLineBreaks(idx: string, vals: seq<string>)
    requires '\n' !in idx && forall i | 0 <= i < |vals| :: '\n' !in vals[i]
    ensures LineBreaks(HallowmasItem(idx, vals)) == 2 + |RefTypes|
  {
    assert '\n' !in "    <text key='toh" && '\n' !in "'>" && '\n' !in "    </text>";
    LineBreaksOfLines(["    <text key='toh" + idx + "'>"]);
    LineBreaksOfLines(["    </text>"]);
    RefLinesLineBreaks(vals, |RefTypes|);
    var head := Lines(["    <text key='toh" + idx + "'>"]);
    LineBreaksAppend(head, RefLines(vals, |RefTypes|));
    LineBreaksAppend(head + RefLines(vals, |RefTypes|), Lines(["    </text>"]));
  }

  lemma {:induction false} HallowmasItemsLineBreaks(keys: seq<string>, table: map<string, seq<string>>)
    requires Covers(keys, table) && OneLineRows(keys, table)
    ensures LineBreaks(HallowmasItems(keys, table)) == 7 * |keys|
  {
    if keys != [] {
      var init := keys[..|keys| - 1];
      var last := keys[|keys| - 1];
      assert forall k | k in init :: k in keys;
      HallowmasItemsLineBreaks(init, table);
      HallowmasItemLineBreaks(last, table[last]);
      LineBreaksAppend(HallowmasItems(init, table), HallowmasItem(last, table[last]));
    }
  }

  /** `@lines_out` counts one line more than is written: the footer ends
      in a backslash and an "n" instead of a line break. */
  lemma HallowmasLinesOutMiscount(h: Hash<seq<string>>)
    requires Covers(h.keys, h.table) && OneLineRows(h.keys, h.table)
    ensures LineBreaks(HallowmasXml(h)) + 1 == HallowmasLinesOut(|h.keys|)
  {
    var items := HallowmasItems(h.keys, h.table);
    HallowmasHeaderLineBreaks();
    HallowmasFooterLineBreaks();
    HallowmasItemsLineBreaks(h.keys, h.table);
    LineBreaksAppend(HallowmasHeader, items);
    LineBreaksAppend(HallowmasHeader + items, HallowmasFooter);
  }

  lemma HallowmasHeaderLineBreaks()
    ensures LineBreaks(HallowmasHeader) == 2
  {
    assert '\n' !in "<text-refs xmlns=" && '\n' !in "\"http://read." && '\n' !in "84000.co/ns/1.0\">";
    assert '\n' !in Declaration && '\n' !in TextRefsOpen;
    LineBreaksOfLines([Declaration, TextRefsOpen]);
  }

  /** The footer's backslash-n is two characters, not a line break. */
  lemma HallowmasFooterLineBreaks()
    ensures LineBreaks(HallowmasFooter) == 0
  {
    assert '\n' !in HallowmasFooter;
    LineBreaksNone(HallowmasFooter);
  }

  // ----------------------------------------------------------------------
  // HallowmasConverter

  class HallowmasConverter {
    var inputFileName: string
    var linesIn: nat
    var outputFileName: string
    var linesOut: nat
    /** `@map`: each row under its first field. */
    var hash: Hash<seq<string>>
    /** The XML file written. */
    var output: string

    ghost predicate Valid()
      reads this`hash
    {
      HallowmasInvariant(hash)
    }

    /** `new`: an empty Hash. */
    constructor ()
      ensures hash == Hash([], map[]) && Valid()
      ensures inputFileName == "" && linesIn == 0 && outputFileName == "" && linesOut == 0 && output == ""
    {
      inputFileName, linesIn := "", 0;
      outputFileName, linesOut := "", 0;
      hash := Hash([], map[]);
      output := "";
    }

    /** `HallowmasConverter.convert(csv_file_name:)`. */
    static method ConvertFile(csvFileName: string, lines: seq<string>)
      returns (c: HallowmasConverter, r: Outcome<ParseError>)
      ensures fresh(c) && c.Valid()
      ensures var p := ReadLines(HallowmasLine, Hash([], map[]), 0, lines);
        c.inputFileName == csvFileName && c.linesIn == p.linesIn && r == p.outcome &&
        (r.Fail? ==> c.hash == p.hash && c.outputFileName == "" && c.linesOut == 0 && c.output == "") &&
        (r.Pass? ==> c.hash == SortByKey(p.hash) && c.outputFileName == OutputName(csvFileName) &&
                     c.output == HallowmasXml(c.hash) && c.linesOut == HallowmasLinesOut(|c.hash.keys|))
    {
      c := new HallowmasConverter();
      r := c.Convert(csvFileName, lines);
    }

    /** `convert`, inherited from Toh2xml. */
    method Convert(csvFileName: string, lines: seq<string>) returns (r: Outcome<ParseError>)
      requires Valid()
      modifies this
      ensures Valid()
      ensures var p := ReadLines(HallowmasLine, old(hash), 0, lines);
        inputFileName == csvFileName && linesIn == p.linesIn && r == p.outcome &&
        (r.Fail? ==> hash == p.hash && outputFileName == old(outputFileName) &&
                     linesOut == old(linesOut) && output == old(output)) &&
        (r.Pass? ==> hash == SortByKey(p.hash) && outputFileName == OutputName(csvFileName) &&
                     output == HallowmasXml(hash) && linesOut == HallowmasLinesOut(|hash.keys|))
    {
      r := ParseCsvFile(csvFileName, lines);
      if r.Fail? {
        return;
      }
      SortMap();
      RenderXmlFile(OutputName(csvFileName));
    }

    /** `parse_csv_file`, inherited from Toh2xml. */
    method ParseCsvFile(fileName: string, lines: seq<string>) returns (r: Outcome<ParseError>)
      requires Valid()
      modifies this`inputFileName, this`linesIn, this`hash
      ensures Valid()
      ensures inputFileName == fileName
      ensures var p := ReadLines(HallowmasLine, old(hash), 0, lines);
        hash == p.hash && linesIn == p.linesIn && r == p.outcome
    {
      inputFileName := fileName;
      linesIn := 0;
      var i := 0;
      assert lines[i..] == lines;
      while i < |lines|
        invariant 0 <= i <= |lines| && linesIn == i && Valid()
        invariant inputFileName == fileName
        invariant ReadLines(HallowmasLine, hash, i, lines[i..]) == ReadLines(HallowmasLine, old(hash), 0, lines)
        decreases |lines| - i
      {
        ReadLinesStep(HallowmasLine, hash, lines, i);
        ghost var res := HallowmasLine(hash, i + 1, lines[i]);
        r := ParseCsvLine(lines[i]);
        if r.Fail? {
          assert res.Err?;
          return;
        }
        assert res.Ok? && hash == res.value;
        i := i + 1;
      }
      assert lines[i..] == [];
      r := Pass;
    }

    method ParseCsvLine(line: string) returns (r: Outcome<ParseError>)
      requires Valid()
      modifies this`linesIn, this`hash
      ensures Valid()
      ensures linesIn == old(linesIn) + 1
      ensures match HallowmasLine(old(hash), linesIn, line)
        case Ok(h) => r == Pass && hash == h
        case Err(e) => r == Fail(e) && hash == old(hash)
    {
      var text := Chomp(line);
      linesIn := linesIn + 1;
      if linesIn == 1 {
        if text != HallowmasHeaderLine {
          return Fail(WrongHeader(1, text));
        }
      } else {
        var vals := UnquoteAll(Split(text));
        if |vals| != |RefTypes| {
          return Fail(UnexpectedFormat(linesIn, text));
        }
        var idx := vals[0];
        if idx in hash.table {
          return Fail(DuplicateIdx(linesIn, text));
        }
        if idx != "idx" {
          hash := hash.Put(idx, vals);
        }
      }
      r := Pass;
    }

    method SortMap()
      requires Valid()
      modifies this`hash
      ensures Valid() && hash == SortByKey(old(hash))
    {
      hash := SortByKey(hash);
    }

    method RenderXmlFile(fileName: string)
      requires Valid()
      modifies this`outputFileName, this`linesOut, this`output
      ensures outputFileName == fileName
      ensures output == HallowmasXml(hash) && linesOut == HallowmasLinesOut(|hash.keys|)
    {
      outputFileName := fileName;
      linesOut := 0;
      output := "";
      RenderXmlHeader();
      ghost var header := output;
      RenderXmlItems(hash.keys, hash.table);
      ghost var items := output;
      RenderXmlFooter();
      AppendedThree([], HallowmasHeader, header, HallowmasItems(hash.keys, hash.table), items, HallowmasFooter, output);
    }

    /** `@map.each { |idx, vals| ... item(idx, vals) }` */
    method RenderXmlItems(keys: seq<string>, table: map<string, seq<string>>)
      requires Covers(keys, table)
      modifies this`output, this`linesOut
      ensures output == old(output) + HallowmasItems(keys, table)
      ensures linesOut == old(linesOut) + 7 * |keys|
    {
      CoversPrefix(keys, table, 0);
      var i := 0;
      while i < |keys|
        invariant 0 <= i <= |keys| && Covers(keys[..i], table)
        invariant output == old(output) + HallowmasItems(keys[..i], table)
        invariant linesOut == old(linesOut) + 7 * i
        decreases |keys| - i
      {
        var key := keys[i];
        HallowmasItemsSnoc(keys, table, i);
        ghost var before := output;
        RenderXmlItem(key, table[key]);
        Appended(old(output), HallowmasItems(keys[..i], table), before, HallowmasItem(key, table[key]), output);
        i := i + 1;
      }
      assert keys[..i] == keys;
    }

    method RenderXmlHeader()
      modifies this`output, this`linesOut
      ensures output == old(output) + HallowmasHeader && linesOut == old(linesOut) + 2
    {
      output := output + HallowmasHeader;
      linesOut := linesOut + 2;
    }

    /** The opening line, a `<ref>` line per reference type, the closing line. */
    method RenderXmlItem(idx: string, vals: seq<string>)
      modifies this`output, this`linesOut
      ensures output == old(output) + HallowmasItem(idx, vals)
      ensures linesOut == old(linesOut) + 2 + |RefTypes|
    {
      var opening, closing := Lines(["    <text key='toh" + idx + "'>"]), Lines(["    </text>"]);
      output := output + opening;
      ghost var head := output;
      var i := 0;
      while i < |RefTypes|
        invariant 0 <= i <= |RefTypes| && linesOut == old(linesOut)
        invariant output == head + RefLines(vals, i)
        decreases |RefTypes| - i
      {
        ghost var before := output;
        output := output + RefLine(RefTypes[i], ValueAt(vals, i));
        Appended(head, RefLines(vals, i), before, RefLine(RefTypes[i], ValueAt(vals, i)), output);
        i := i + 1;
      }
      ghost var refs := output;
      output := output + closing;
      AppendedThree(old(output), opening, head, RefLines(vals, |RefTypes|), refs, closing, output);
      linesOut := linesOut + 2 + |RefTypes|;
    }

    method RenderXmlFooter()
      modifies this`output, this`linesOut
      ensures output == old(output) + HallowmasFooter && linesOut == old(linesOut) + 1
    {
      output := output + HallowmasFooter;
      linesOut := linesOut + 1;
    }
  }
}
