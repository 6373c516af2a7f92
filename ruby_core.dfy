/** The parts of Ruby's core library that the CSV-to-XML converters rely on,
    stated over `string` (a sequence of characters): String#strip!,
    String#chomp, String#split(","), the quote-stripping substitution
    gsub(/^\s*"|"\s*$/, ''), String#to_i, sorting by `to_i`, and the
    insertion-ordered Hash. */
module RubyCore {
  import opened Wrappers

  /** ASCII white space: the regular-expression class `\s`, and the
      characters String#to_i skips before a number. */
  predicate IsAsciiSpace(c: char)
  {
    c == ' ' || c == '\t' || c == '\n' || c == '\U{B}' || c == '\U{C}' || c == '\r'
  }

  /** The characters String#strip removes at either end: ASCII white space and NUL. */
  predicate IsStripSpace(c: char)
  {
    c == '\0' || IsAsciiSpace(c)
  }

  /** The two classes of white space the converters trim. */
  datatype SpaceClass = StripSpace | AsciiSpace

  predicate IsSpace(c: char, space: SpaceClass)
  {
    match space
    case StripSpace => IsStripSpace(c)
    case AsciiSpace => IsAsciiSpace(c)
  }

  /** `s` without its leading run of `space` characters. */
  function TrimLeft(s: string, space: SpaceClass): (r: string)
    ensures |r| <= |s| && r == s[|s| - |r|..]
    ensures forall i | 0 <= i < |s| - |r| :: IsSpace(s[i], space)
    ensures r == [] || !IsSpace(r[0], space)
  {
    if s != [] && IsSpace(s[0], space) then TrimLeft(s[1..], space) else s
  }

  /** `s` without its trailing run of `space` characters. */
  function TrimRight(s: string, space: SpaceClass): (r: string)
    ensures |r| <= |s| && r == s[..|r|]
    ensures forall i | |r| <= i < |s| :: IsSpace(s[i], space)
    ensures r == [] || !IsSpace(r[|r| - 1], space)
  {
    if s != [] && IsSpace(s[|s| - 1], space) then TrimRight(s[..|s| - 1], space) else s
  }

  /** Trimming stops at the first character that is not a space. */
  lemma {:induction false} TrimLeftPrefix(pre: string, rest: string, space: SpaceClass)
    requires forall i | 0 <= i < |pre| :: IsSpace(pre[i], space)
    requires rest == [] || !IsSpace(rest[0], space)
    ensures TrimLeft(pre + rest, space) == rest
  {
    if pre == [] {
      assert pre + rest == rest;
    } else {
      assert (pre + rest)[1..] == pre[1..] + rest;
      TrimLeftPrefix(pre[1..], rest, space);
    }
  }

  /** Trimming from the right stops at the last character that is not a space. */
  lemma {:induction false} TrimRightSuffix(rest: string, post: string, space: SpaceClass)
    requires forall i | 0 <= i < |post| :: IsSpace(post[i], space)
    requires rest == [] || !IsSpace(rest[|rest| - 1], space)
    ensures TrimRight(rest + post, space) == rest
  {
    if post == [] {
      assert rest + post == rest;
    } else {
      var shorter := post[..|post| - 1];
      assert (rest + post)[..|rest + post| - 1] == rest + shorter;
      TrimRightSuffix(rest, shorter, space);
    }
  }

  /** String#strip. */
  function Strip(s: string): (r: string)
    ensures |r| <= |s|
  {
    TrimRight(TrimLeft(s, StripSpace), StripSpace)
  }

  /** The stripped string has white space at neither end. */
  lemma StripEnds(s: string)
    ensures var r := Strip(s); r == [] || (!IsStripSpace(r[0]) && !IsStripSpace(r[|r| - 1]))
  {
    var t := TrimLeft(s, StripSpace);
    var r := TrimRight(t, StripSpace);
    assert r != [] ==> r[0] == t[0];
  }

  /** String#strip!: the stripped string, or None (Ruby's nil) when there
      was nothing to strip. */
  function StripBang(s: string): (r: Option<string>)
    ensures r.None? <==> s == [] || (!IsStripSpace(s[0]) && !IsStripSpace(s[|s| - 1]))
    ensures r.Some? ==> r.value == Strip(s) && |r.value| < |s|
  {
    StripUnchanged(s);
    var t := Strip(s);
    if t == s then None else Some(t)
  }

  /** Strip leaves a string alone exactly when neither end is white space. */
  lemma StripUnchanged(s: string)
    ensures Strip(s) == s <==> s == [] || (!IsStripSpace(s[0]) && !IsStripSpace(s[|s| - 1]))
  {
    var u := TrimLeft(s, StripSpace);
    if s != [] && !IsStripSpace(s[0]) && !IsStripSpace(s[|s| - 1]) {
      assert u == s;
      assert TrimRight(s, StripSpace) == s;
    }
    if Strip(s) == s && s != [] {
      assert |u| == |s|;
      assert u == s;
    }
  }

  /** String#chomp with no argument: one trailing "\r\n", "\n" or "\r" removed. */
  function Chomp(s: string): (r: string)
    ensures |r| <= |s| && r == s[..|r|]
    ensures s[|r|..] in {"", "\n", "\r", "\r\n"}
    ensures r == s <==> s == [] || (s[|s| - 1] != '\n' && s[|s| - 1] != '\r')
    ensures s[|r|..] == "\n" ==> r == [] || r[|r| - 1] != '\r'
  {
    if |s| >= 2 && s[|s| - 2] == '\r' && s[|s| - 1] == '\n' then
      assert s[|s| - 2..] == "\r\n";
      s[..|s| - 2]
    else if |s| >= 1 && (s[|s| - 1] == '\n' || s[|s| - 1] == '\r') then
      assert s[|s| - 1..] == [s[|s| - 1]];
      s[..|s| - 1]
    else
      assert s[|s|..] == "";
      s
  }

  /** Chomp removes the line break of a line that has no carriage return before it. */
  lemma ChompOfLine(text: string)
    requires text == [] || text[|text| - 1] != '\r'
    ensures Chomp(text + "\n") == text
  {
    var line := text + "\n";
    assert line[..|line| - 1] == text;
  }

  /** Fields joined by commas. */
  function Join(fields: seq<string>): string
  {
    if |fields| == 0 then ""
    else if |fields| == 1 then fields[0]
    else fields[0] + "," + Join(fields[1..])
  }

  /** Every comma-separated field of `s`, empty ones included; joining them
      gives `s` back. */
  function Fields(s: string): (r: seq<string>)
    ensures |r| >= 1
    ensures forall i | 0 <= i < |r| :: ',' !in r[i]
    ensures Join(r) == s
  {
    if s == [] then [""]
    else
      var rest := Fields(s[1..]);
      if s[0] == ',' then
        assert ([""] + rest)[1..] == rest;
        [""] + rest
      else
        var r := [[s[0]] + rest[0]] + rest[1..];
        assert r[1..] == rest[1..];
        assert |rest| >= 2 ==> Join(rest) == rest[0] + "," + Join(rest[1..]);
        assert [s[0]] + s[1..] == s;
        r
  }

  /** A field without commas is a single field. */
  lemma {:induction false} FieldsOfField(a: string)
    requires ',' !in a
    ensures Fields(a) == [a]
  {
    if a != [] {
      FieldsOfField(a[1..]);
      assert [a[0]] + a[1..] == a;
    }
  }

  /** A field without commas followed by a comma starts the field list. */
  lemma {:induction false} FieldsOfCons(a: string, b: string)
    requires ',' !in a
    ensures Fields(a + "," + b) == [a] + Fields(b)
  {
    var s := a + "," + b;
    if a == [] {
      assert s == "," + b && s[1..] == b;
    } else {
      assert s[0] == a[0] && s[1..] == a[1..] + "," + b;
      FieldsOfCons(a[1..], b);
      assert [a[0]] + a[1..] == a;
    }
  }

  /** Splitting the join of comma-free fields gives the fields back. */
  lemma {:induction false} FieldsOfJoin(fields: seq<string>)
    requires |fields| >= 1
    requires forall i | 0 <= i < |fields| :: ',' !in fields[i]
    ensures Fields(Join(fields)) == fields
  {
    if |fields| == 1 {
      FieldsOfField(fields[0]);
    } else {
      FieldsOfJoin(fields[1..]);
      FieldsOfCons(fields[0], Join(fields[1..]));
      assert [fields[0]] + fields[1..] == fields;
    }
  }

  /** The sequence without its trailing empty strings. */
  function DropTrailingEmpty(fields: seq<string>): (r: seq<string>)
    ensures |r| <= |fields| && r == fields[..|r|]
    ensures forall i | |r| <= i < |fields| :: fields[i] == ""
    ensures r == [] || r[|r| - 1] != ""
  {
    if fields != [] && fields[|fields| - 1] == "" then DropTrailingEmpty(fields[..|fields| - 1]) else fields
  }

  /** String#split(","): the comma-separated fields, trailing empty fields dropped. */
  function Split(s: string): (r: seq<string>)
    ensures |r| <= |Fields(s)| && r == Fields(s)[..|r|]
    ensures forall i | |r| <= i < |Fields(s)| :: Fields(s)[i] == ""
    ensures r == [] || r[|r| - 1] != ""
  {
    DropTrailingEmpty(Fields(s))
  }

  /** Splitting the join of comma-free fields gives the fields back, less
      their trailing empty ones. */
  lemma SplitOfFields(fields: seq<string>)
    requires |fields| >= 1
    requires forall i | 0 <= i < |fields| :: ',' !in fields[i]
    ensures Split(Join(fields)) == DropTrailingEmpty(fields)
  {
    FieldsOfJoin(fields);
  }

  /** Splitting the join of comma-free fields, the last one non-empty, gives
      the fields back. */
  lemma SplitOfJoin(fields: seq<string>)
    requires |fields| >= 1 && fields[|fields| - 1] != ""
    requires forall i | 0 <= i < |fields| :: ',' !in fields[i]
    ensures Split(Join(fields)) == fields
  {
    FieldsOfJoin(fields);
  }

  /** gsub(/^\s*"|"\s*$/, '') on a field without line breaks: a leading
      quote, with any white space before it, is removed, and then a
      trailing quote, with any white space after it. */
  function Unquote(s: string): (r: string)
    ensures |r| <= |s|
  {
    var lead := TrimLeft(s, AsciiSpace);
    var u := if lead != [] && lead[0] == '"' then lead[1..] else s;
    var trail := TrimRight(u, AsciiSpace);
    if trail != [] && trail[|trail| - 1] == '"' then trail[..|trail| - 1] else u
  }

  /** A field without double quotes is left as it is. */
  lemma UnquoteOfPlain(s: string)
    requires '"' !in s
    ensures Unquote(s) == s
  {
    PlainTrims(s);
    UnquoteUnchanged(s);
  }

  /** Neither trim of a quote-free field uncovers a quote. */
  lemma PlainTrims(s: string)
    requires '"' !in s
    ensures var lead := TrimLeft(s, AsciiSpace); lead == [] || lead[0] != '"'
    ensures var trail := TrimRight(s, AsciiSpace); trail == [] || trail[|trail| - 1] != '"'
  {
    var lead := TrimLeft(s, AsciiSpace);
    assert lead != [] ==> lead[0] == s[|s| - |lead|];
    var trail := TrimRight(s, AsciiSpace);
    assert trail != [] ==> trail[|trail| - 1] == s[|trail| - 1];
  }

  /** Unquote leaves a field alone when its trims uncover no quote. */
  lemma UnquoteUnchanged(s: string)
    requires var lead := TrimLeft(s, AsciiSpace); lead == [] || lead[0] != '"'
    requires var trail := TrimRight(s, AsciiSpace); trail == [] || trail[|trail| - 1] != '"'
    ensures Unquote(s) == s
  {
  }

  /** Unquote removes the quotes that its two trims uncover. */
  lemma UnquoteUncovered(s: string, u: string, t: string)
    requires TrimLeft(s, AsciiSpace) == "\"" + u
    requires TrimRight(u, AsciiSpace) == t + "\""
    ensures Unquote(s) == t
  {
    var lead := TrimLeft(s, AsciiSpace);
    assert lead[0] == '"' && lead[1..] == u;
    var trail := TrimRight(u, AsciiSpace);
    assert trail[|trail| - 1] == '"' && trail[..|trail| - 1] == t;
  }

  /** A quoted field, with white space on either side, loses exactly its
      quotes and the white space. */
  lemma UnquoteQuoted(pre: string, t: string, post: string)
    requires forall i | 0 <= i < |pre| :: IsAsciiSpace(pre[i])
    requires forall i | 0 <= i < |post| :: IsAsciiSpace(post[i])
    ensures Unquote(pre + "\"" + t + "\"" + post) == t
  {
    var closed := t + "\"";
    var u := closed + post;
    assert pre + "\"" + t + "\"" + post == pre + ("\"" + u);
    TrimLeftPrefix(pre, "\"" + u, AsciiSpace);
    TrimRightSuffix(closed, post, AsciiSpace);
    UnquoteUncovered(pre + ("\"" + u), u, t);
  }

  /** An opening quote without a closing one is removed with the white
      space before it. */
  lemma UnquoteLeading(pre: string, t: string)
    requires forall i | 0 <= i < |pre| :: IsAsciiSpace(pre[i])
    requires var trail := TrimRight(t, AsciiSpace); trail == [] || trail[|trail| - 1] != '"'
    ensures Unquote(pre + "\"" + t) == t
  {
    var quoted := "\"" + t;
    assert pre + "\"" + t == pre + quoted;
    TrimLeftPrefix(pre, quoted, AsciiSpace);
    UnquoteOpened(pre + quoted, t);
  }

  lemma UnquoteOpened(s: string, t: string)
    requires TrimLeft(s, AsciiSpace) == "\"" + t
    requires var trail := TrimRight(t, AsciiSpace); trail == [] || trail[|trail| - 1] != '"'
    ensures Unquote(s) == t
  {
    var lead := TrimLeft(s, AsciiSpace);
    assert lead[0] == '"' && lead[1..] == t;
  }

  /** A closing quote without an opening one is removed with the white
      space after it. */
  lemma UnquoteTrailing(pre: string, t: string, post: string)
    requires forall i | 0 <= i < |pre| :: IsAsciiSpace(pre[i])
    requires t != [] && t[0] != '"' && !IsAsciiSpace(t[0])
    requires forall i | 0 <= i < |post| :: IsAsciiSpace(post[i])
    ensures Unquote(pre + t + "\"" + post) == pre + t
  {
    var closed := pre + t + "\"";
    assert pre + t + "\"" + post == pre + t + ("\"" + post) == closed + post;
    ClosedLead(pre, t, "\"" + post);
    ClosedTrail(closed, post);
    UnquoteClosed(closed + post, pre + t);
  }

  /** The left trim of Unquote stops at the first character of `t`. */
  lemma ClosedLead(pre: string, t: string, post: string)
    requires forall i | 0 <= i < |pre| :: IsAsciiSpace(pre[i])
    requires t != [] && t[0] != '"' && !IsAsciiSpace(t[0])
    ensures var lead := TrimLeft(pre + t + post, AsciiSpace); lead != [] && lead[0] != '"'
  {
    var rest := t + post;
    assert pre + t + post == pre + rest;
    assert rest[0] == t[0];
    TrimLeftPrefix(pre, rest, AsciiSpace);
  }

  /** The right trim of Unquote stops at the closing quote. */
  lemma ClosedTrail(closed: string, post: string)
    requires closed != [] && closed[|closed| - 1] == '"'
    requires forall i | 0 <= i < |post| :: IsAsciiSpace(post[i])
    ensures TrimRight(closed + post, AsciiSpace) == closed
  {
    TrimRightSuffix(closed, post, AsciiSpace);
  }

  lemma UnquoteClosed(s: string, t: string)
    requires var lead := TrimLeft(s, AsciiSpace); lead != [] && lead[0] != '"'
    requires TrimRight(s, AsciiSpace) == t + "\""
    ensures Unquote(s) == t
  {
    var trail := TrimRight(s, AsciiSpace);
    assert trail[|trail| - 1] == '"' && trail[..|trail| - 1] == t;
  }

  /** The fields, each passed through Unquote. */
  function UnquoteAll(fields: seq<string>): (r: seq<string>)
    ensures |r| == |fields|
    ensures forall i | 0 <= i < |r| :: r[i] == Unquote(fields[i])
  {
    seq(|fields|, i requires 0 <= i < |fields| => Unquote(fields[i]))
  }

  predicate IsDigit(c: char)
  {
    '0' <= c <= '9'
  }

  predicate AllDigits(s: string)
  {
    forall i | 0 <= i < |s| :: IsDigit(s[i])
  }

  /** The digits at the start of `s`, where one underscore may separate two
      digits; the underscores are dropped. */
  function LeadingDigits(s: string): (r: string)
    ensures AllDigits(r) && |r| <= |s|
    decreases |s|
  {
    if s == [] || !IsDigit(s[0]) then []
    else if |s| >= 3 && s[1] == '_' && IsDigit(s[2]) then [s[0]] + LeadingDigits(s[2..])
    else [s[0]] + LeadingDigits(s[1..])
  }

  /** The value of a string of decimal digits. */
  function DecimalValue(d: string): nat
    requires AllDigits(d)
  {
    if d == [] then 0 else 10 * DecimalValue(d[..|d| - 1]) + (d[|d| - 1] as int - '0' as int)
  }

  /** `s` after its leading white space and an optional sign. */
  function Unsigned(s: string): (r: string)
    ensures |r| <= |s| && r == s[|s| - |r|..]
  {
    DropSign(TrimLeft(s, AsciiSpace))
  }

  /** `t` without a leading `-` or `+`. */
  function DropSign(t: string): (r: string)
    ensures |r| <= |t| && r == t[|t| - |r|..]
  {
    if t != [] && (t[0] == '-' || t[0] == '+') then t[1..] else t
  }

  /** String#to_i: white space is skipped, then an optional sign and an
      optional `0d` radix prefix; the digits that follow are read, and
      anything after them is ignored. No digits read as 0. */
  function ToI(s: string): int
  {
    var t := TrimLeft(s, AsciiSpace);
    var n: int := Magnitude(Unsigned(s));
    if t != [] && t[0] == '-' then -n else n
  }

  /** The value read from an unsigned number: an optional `0d` prefix, then
      the leading digits. */
  function Magnitude(u: string): nat
  {
    var body := if |u| >= 2 && u[0] == '0' && (u[1] == 'd' || u[1] == 'D') then u[2..] else u;
    DecimalValue(LeadingDigits(body))
  }

  /** A string that has no digit right after its white space and sign reads
      as 0; so does one without any digit. */
  lemma ToIWithoutLeadingDigit(s: string)
    requires Unsigned(s) == [] || !IsDigit(Unsigned(s)[0])
    ensures ToI(s) == 0
  {
  }

  /** White space, an optional sign, then digits and text that cannot
      continue them: the signed value of the digits. */
  lemma ToIOfSigned(ws: string, sign: string, d: string, rest: string)
    requires forall i | 0 <= i < |ws| :: IsAsciiSpace(ws[i])
    requires sign == "" || sign == "-" || sign == "+"
    requires d != [] && AllDigits(d) && EndsNumber(rest)
    ensures var n: int := DecimalValue(d);
      ToI(ws + sign + d + rest) == if sign == "-" then -n else n
  {
    MagnitudeOfDigits(d, rest);
    Concat3(ws + sign, d, rest);
    ToIOfSpaced(ws, sign, d + rest, DecimalValue(d));
  }

  /** The same after a `0d` radix prefix. */
  lemma ToIOfRadixPrefix(ws: string, sign: string, radix: string, d: string, rest: string)
    requires forall i | 0 <= i < |ws| :: IsAsciiSpace(ws[i])
    requires sign == "" || sign == "-" || sign == "+"
    requires radix == "0d" || radix == "0D"
    requires AllDigits(d) && EndsNumber(rest)
    ensures var n: int := DecimalValue(d);
      ToI(ws + sign + radix + d + rest) == if sign == "-" then -n else n
  {
    MagnitudeOfRadix(radix, d, rest);
    Concat3(ws + sign, radix, d + rest);
    assert ws + sign + radix + d + rest == ws + sign + radix + (d + rest);
    ToIOfSpaced(ws, sign, radix + (d + rest), DecimalValue(d));
  }

  /** Digits that end where the number ends, with no `0d` prefix in front. */
  lemma MagnitudeOfDigits(d: string, rest: string)
    requires d != [] && AllDigits(d) && EndsNumber(rest)
    ensures IsDigit((d + rest)[0])
    ensures Magnitude(d + rest) == DecimalValue(d)
  {
    var u := d + rest;
    assert u[0] == d[0];
    assert |u| >= 2 ==> u[1] == (if |d| >= 2 then d[1] else rest[0]);
    LeadingDigitsOfDigits(d, rest);
    MagnitudeOfPrefix(u, u);
  }

  /** Digits after a `0d` prefix. */
  lemma MagnitudeOfRadix(radix: string, d: string, rest: string)
    requires radix == "0d" || radix == "0D"
    requires AllDigits(d) && EndsNumber(rest)
    ensures IsDigit((radix + (d + rest))[0])
    ensures Magnitude(radix + (d + rest)) == DecimalValue(d)
  {
    var prefixed := radix + (d + rest);
    assert prefixed[0] == '0' && prefixed[2..] == d + rest;
    LeadingDigitsOfDigits(d, rest);
    MagnitudeOfPrefix(prefixed, d + rest);
  }

  lemma Concat3(a: string, b: string, c: string)
    ensures a + b + c == a + (b + c)
  {
  }

  /** White space, an optional sign, then a digit: the sign applies to the
      magnitude of what follows it. */
  lemma ToIOfSpaced(ws: string, sign: string, rest: string, n: int)
    requires forall i | 0 <= i < |ws| :: IsAsciiSpace(ws[i])
    requires sign == "" || sign == "-" || sign == "+"
    requires rest != [] && IsDigit(rest[0])
    requires Magnitude(rest) == n
    ensures ToI(ws + sign + rest) == if sign == "-" then -n else n
  {
    var signed := sign + rest;
    assert ws + sign + rest == ws + signed;
    SignedStart(sign, rest);
    TrimLeftPrefix(ws, signed, AsciiSpace);
    ToIOfTrimmed(ws + signed, sign, rest, n);
  }

  /** A sign or a digit is not white space. */
  lemma SignedStart(sign: string, rest: string)
    requires sign == "" || sign == "-" || sign == "+"
    requires rest != [] && IsDigit(rest[0])
    ensures !IsSpace((sign + rest)[0], AsciiSpace)
  {
    if sign != "" {
      assert (sign + rest)[0] == sign[0];
    }
  }

  /** Magnitude reads the digits after a `0d` prefix, or from the start
      when there is none. */
  lemma MagnitudeOfPrefix(u: string, body: string)
    requires if |u| >= 2 && u[0] == '0' && (u[1] == 'd' || u[1] == 'D') then body == u[2..] else body == u
    ensures Magnitude(u) == DecimalValue(LeadingDigits(body))
  {
  }

  /** ToI once the white space is gone: the sign applies to the magnitude of
      what follows it. */
  lemma ToIOfTrimmed(s: string, sign: string, rest: string, n: int)
    requires sign == "" || sign == "-" || sign == "+"
    requires rest != [] && IsDigit(rest[0])
    requires TrimLeft(s, AsciiSpace) == sign + rest
    requires Magnitude(rest) == n
    ensures ToI(s) == if sign == "-" then -n else n
  {
    UnsignedOfTrimmed(s, sign, rest);
  }

  lemma UnsignedOfTrimmed(s: string, sign: string, rest: string)
    requires sign == "" || sign == "-" || sign == "+"
    requires rest != [] && IsDigit(rest[0])
    requires TrimLeft(s, AsciiSpace) == sign + rest
    ensures Unsigned(s) == rest
    ensures var t := TrimLeft(s, AsciiSpace); t != [] && (t[0] == '-' <==> sign == "-")
  {
    DropSignOf(sign, rest);
  }

  /** The sign in front of a digit is what DropSign removes. */
  lemma DropSignOf(sign: string, rest: string)
    requires sign == "" || sign == "-" || sign == "+"
    requires rest != [] && IsDigit(rest[0])
    ensures DropSign(sign + rest) == rest
    ensures (sign + rest)[0] == '-' <==> sign == "-"
  {
    var t := sign + rest;
    if sign == "" {
      assert t == rest;
    } else {
      assert t[0] == sign[0] && t[1..] == rest;
    }
  }


  /** The decimal numeral of `n`, with no leading zero. */
  function NatString(n: nat): (r: string)
    ensures |r| >= 1 && AllDigits(r)
    ensures |r| > 1 ==> r[0] != '0'
    ensures n > 0 ==> r[0] != '0'
  {
    if n < 10 then [('0' as int + n) as char]
    else NatString(n / 10) + [('0' as int + n % 10) as char]
  }

  lemma {:induction false} DecimalValueOfNatString(n: nat)
    ensures DecimalValue(NatString(n)) == n
  {
    if n >= 10 {
      DecimalValueOfNatString(n / 10);
      var d := NatString(n);
      assert d[..|d| - 1] == NatString(n / 10);
    }
  }

  /** A character that cannot continue a number for String#to_i. */
  predicate EndsNumber(rest: string)
  {
    rest == [] || !(IsDigit(rest[0]) || rest[0] == '_' || rest[0] == 'd' || rest[0] == 'D')
  }

  lemma {:induction false} LeadingDigitsOfDigits(d: string, rest: string)
    requires AllDigits(d) && EndsNumber(rest)
    ensures LeadingDigits(d + rest) == d
  {
    if d == [] {
      assert d + rest == rest;
    } else {
      var s := d + rest;
      assert s[1..] == d[1..] + rest;
      LeadingDigitsOfDigits(d[1..], rest);
      assert [d[0]] + d[1..] == d;
    }
  }

  /** String#to_i reads back a numeral, whatever non-numeric text follows it. */
  lemma ToIOfNatString(n: nat, rest: string)
    requires EndsNumber(rest)
    ensures ToI(NatString(n) + rest) == n
  {
    var d := NatString(n);
    var s := d + rest;
    assert s[0] == d[0] && IsDigit(s[0]);
    assert |s| >= 2 && s[0] == '0' ==> |d| == 1 && s[1] == rest[0];
    ToIOfDigits(s);
    LeadingDigitsOfDigits(d, rest);
    DecimalValueOfNatString(n);
  }

  /** A string starting with a digit, and not with a `0d` prefix, reads as
      its leading digits. */
  lemma ToIOfDigits(s: string)
    requires s != [] && IsDigit(s[0])
    requires !(|s| >= 2 && s[0] == '0' && (s[1] == 'd' || s[1] == 'D'))
    ensures ToI(s) == DecimalValue(LeadingDigits(s))
  {
    MagnitudeOfPrefix(s, s);
    ToIOfSpaced([], [], s, DecimalValue(LeadingDigits(s)));
    assert [] + [] + s == s;
  }


  /** Keys in nondecreasing order of `rank`. */
  predicate SortedBy(keys: seq<string>, rank: string -> int)
  {
    forall i, j | 0 <= i < j < |keys| :: rank(keys[i]) <= rank(keys[j])
  }

  /** `k` inserted before the first element whose rank is above its own, so
      after every element of the same rank. */
  function InsertBy(k: string, sorted: seq<string>, rank: string -> int): (r: seq<string>)
    ensures multiset(r) == multiset(sorted) + multiset{k}
  {
    if sorted == [] then [k]
    else if rank(k) < rank(sorted[0]) then [k] + sorted
    else
      assert sorted == [sorted[0]] + sorted[1..];
      [sorted[0]] + InsertBy(k, sorted[1..], rank)
  }

  /** Inserting into a sorted sequence keeps it sorted. */
  lemma {:induction false} InsertBySorted(k: string, sorted: seq<string>, rank: string -> int)
    requires SortedBy(sorted, rank)
    ensures SortedBy(InsertBy(k, sorted, rank), rank)
  {
    if sorted != [] && rank(k) >= rank(sorted[0]) {
      var tail := sorted[1..];
      InsertBySorted(k, tail, rank);
      var rest := InsertBy(k, tail, rank);
      forall j | 0 <= j < |rest| ensures rank(sorted[0]) <= rank(rest[j]) {
        assert rest[j] in multiset(rest);
        if rest[j] != k {
          assert rest[j] in multiset(tail);
          var m :| 0 <= m < |tail| && tail[m] == rest[j];
          assert sorted[m + 1] == rest[j];
        }
      }
      SortedCons(sorted[0], rest, rank);
    }
  }

  /** A head no greater than any later element extends a sorted sequence. */
  lemma SortedCons(x: string, rest: seq<string>, rank: string -> int)
    requires SortedBy(rest, rank)
    requires forall j | 0 <= j < |rest| :: rank(x) <= rank(rest[j])
    ensures SortedBy([x] + rest, rank)
  {
    var r := [x] + rest;
    forall i, j | 0 <= i < j < |r| ensures rank(r[i]) <= rank(r[j]) {
      assert r[j] == rest[j - 1];
      if i > 0 {
        assert r[i] == rest[i - 1];
      }
    }
  }

  /** Insertion sort of the keys by `rank`. */
  function SortBy(keys: seq<string>, rank: string -> int): (r: seq<string>)
    ensures SortedBy(r, rank)
    ensures multiset(r) == multiset(keys)
  {
    if keys == [] then []
    else
      var init := keys[..|keys| - 1];
      assert keys == init + [keys[|keys| - 1]];
      InsertBySorted(keys[|keys| - 1], SortBy(init, rank), rank);
      InsertBy(keys[|keys| - 1], SortBy(init, rank), rank)
  }

  /** The keys of rank `v`, in their order in `keys`. */
  function WithRank(keys: seq<string>, rank: string -> int, v: int): seq<string>
  {
    if keys == [] then []
    else (if rank(keys[0]) == v then [keys[0]] else []) + WithRank(keys[1..], rank, v)
  }

  lemma {:induction false} WithRankAppend(a: seq<string>, b: seq<string>, rank: string -> int, v: int)
    ensures WithRank(a + b, rank, v) == WithRank(a, rank, v) + WithRank(b, rank, v)
  {
    if a != [] {
      assert (a + b)[1..] == a[1..] + b;
      WithRankAppend(a[1..], b, rank, v);
    } else {
      assert a + b == b;
    }
  }

  /** The tail of a sorted sequence is sorted. */
  lemma SortedTail(sorted: seq<string>, rank: string -> int)
    requires sorted != [] && SortedBy(sorted, rank)
    ensures SortedBy(sorted[1..], rank)
  {
    var tail := sorted[1..];
    forall i, j | 0 <= i < j < |tail| ensures rank(tail[i]) <= rank(tail[j]) {
      assert tail[i] == sorted[i + 1] && tail[j] == sorted[j + 1];
    }
  }

  /** A sorted sequence whose first rank is above `v` has no key of rank `v`. */
  lemma {:induction false} WithRankAbove(sorted: seq<string>, rank: string -> int, v: int)
    requires SortedBy(sorted, rank)
    requires sorted != [] ==> v < rank(sorted[0])
    ensures WithRank(sorted, rank, v) == []
  {
    if sorted != [] {
      SortedTail(sorted, rank);
      assert |sorted| > 1 ==> sorted[1..][0] == sorted[1];
      WithRankAbove(sorted[1..], rank, v);
    }
  }

  /** Inserting `k` adds it after the keys of its rank already there. */
  lemma {:induction false} WithRankInsertBy(k: string, sorted: seq<string>, rank: string -> int, v: int)
    requires SortedBy(sorted, rank)
    ensures WithRank(InsertBy(k, sorted, rank), rank, v)
         == WithRank(sorted, rank, v) + (if rank(k) == v then [k] else [])
    decreases |sorted|, 1
  {
    if sorted == [] {
      WithRankCons(k, [], rank, v);
      assert [k] + [] == [k];
    } else if rank(k) < rank(sorted[0]) {
      assert InsertBy(k, sorted, rank) == [k] + sorted;
      WithRankInsertByFront(k, sorted, rank, v);
    } else {
      WithRankInsertByLater(k, sorted, rank, v);
    }
  }

  /** The case of WithRankInsertBy where `k` goes in front. */
  lemma WithRankInsertByFront(k: string, sorted: seq<string>, rank: string -> int, v: int)
    requires SortedBy(sorted, rank)
    requires sorted != [] && rank(k) < rank(sorted[0])
    ensures WithRank([k] + sorted, rank, v)
         == WithRank(sorted, rank, v) + (if rank(k) == v then [k] else [])
  {
    WithRankCons(k, sorted, rank, v);
    if rank(k) == v {
      WithRankAbove(sorted, rank, v);
      assert [k] + [] == [] + [k];
    } else {
      assert [] + WithRank(sorted, rank, v) == WithRank(sorted, rank, v) + [];
    }
  }

  /** The case of WithRankInsertBy where `k` goes past the head. */
  lemma {:induction false} WithRankInsertByLater(k: string, sorted: seq<string>, rank: string -> int, v: int)
    requires SortedBy(sorted, rank)
    requires sorted != [] && rank(sorted[0]) <= rank(k)
    ensures WithRank(InsertBy(k, sorted, rank), rank, v)
         == WithRank(sorted, rank, v) + (if rank(k) == v then [k] else [])
    decreases |sorted|, 0
  {
    var tail := sorted[1..];
    SortedTail(sorted, rank);
    WithRankInsertBy(k, tail, rank, v);
    assert InsertBy(k, sorted, rank) == [sorted[0]] + InsertBy(k, tail, rank);
    WithRankCons(sorted[0], InsertBy(k, tail, rank), rank, v);
    WithRankCons(sorted[0], tail, rank, v);
  }

  lemma WithRankCons(x: string, rest: seq<string>, rank: string -> int, v: int)
    ensures WithRank([x] + rest, rank, v) == (if rank(x) == v then [x] else []) + WithRank(rest, rank, v)
  {
    assert ([x] + rest)[1..] == rest;
  }

  /** The sort is stable: the keys of each rank keep their order. */
  lemma {:induction false} SortByStable(keys: seq<string>, rank: string -> int, v: int)
    ensures WithRank(SortBy(keys, rank), rank, v) == WithRank(keys, rank, v)
  {
    if keys != [] {
      var init := keys[..|keys| - 1];
      var k := keys[|keys| - 1];
      SplitLast(keys);
      SortByStable(init, rank, v);
      WithRankInsertBy(k, SortBy(init, rank), rank, v);
      WithRankAppend(init, [k], rank, v);
      WithRankCons(k, [], rank, v);
    }
  }

  lemma SplitLast(keys: seq<string>)
    requires keys != []
    ensures keys == keys[..|keys| - 1] + [keys[|keys| - 1]]
  {
  }

  /** Keys in nondecreasing order of their `to_i` value. */
  predicate SortedByToI(keys: seq<string>)
  {
    SortedBy(keys, ToI)
  }

  /** Every key of the sequence has an entry in the table. */
  predicate Covers<V>(keys: seq<string>, table: map<string, V>)
  {
    forall k | k in keys :: k in table
  }

  /** A Ruby Hash with string keys: its keys in insertion order, and the table. */
  datatype Hash<V> = Hash(keys: seq<string>, table: map<string, V>)
  {
    /** The key order lists each key of the table once. */
    ghost predicate Valid()
    {
      Covers(keys, table) && (forall k | k in table :: k in keys) && Distinct(keys)
    }

    /** `h[k] = v`: a new key goes to the end, an existing one keeps its place. */
    function Put(k: string, v: V): (h: Hash<V>)
      ensures h.table == table[k := v]
      ensures k !in table ==> h.keys == keys + [k]
      ensures k in table ==> h.keys == keys
      ensures Valid() ==> h.Valid()
    {
      if k in table then
        Hash(keys, table[k := v])
      else
        assert Valid() ==> k !in keys;
        DistinctSnoc(keys, k);
        Hash(keys + [k], table[k := v])
    }
  }

  /** `h.sort_by { |key, val| key.to_i }.to_h`: the same entries, the keys
      in nondecreasing `to_i` order. */
  function SortByKey<V>(h: Hash<V>): (r: Hash<V>)
    ensures r.table == h.table
    ensures multiset(r.keys) == multiset(h.keys)
    ensures SortedByToI(r.keys)
    ensures h.Valid() ==> r.Valid()
  {
    var keys := SortBy(h.keys, ToI);
    assert forall x :: x in keys <==> x in multiset(h.keys);
    DistinctMultiset(keys);
    DistinctMultiset(h.keys);
    Hash(keys, h.table)
  }

  /** Keys with the same `to_i` keep the order they had in the Hash. */
  lemma SortByKeyStable<V>(h: Hash<V>, v: int)
    ensures WithRank(SortByKey(h).keys, ToI, v) == WithRank(h.keys, ToI, v)
  {
    SortByStable(h.keys, ToI, v);
  }
}
