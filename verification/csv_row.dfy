/**
  The row writer of the uniVocity strategy (UniVocityCsvParserStrategy.writeRow):
  fields joined by the delimiter, a field quoted when it holds the delimiter,
  a newline or the quote character, embedded quotes doubled, and a newline at
  the end of the row.

  The partner of the writer is a small field reader; on every row of at least
  one field the reader recovers the written values.
 */
module CsvRow {
  import opened Wrappers

  /** A Java `null` field is written as the empty string. */
  function ValueOf(field: Option<string>): (v: string) {
    if field.Some? then field.value else ""
  }

  /** The field needs quotes when it holds the delimiter, a newline or the quote
      character; a carriage return alone does not count. */
  predicate NeedsQuote(delimiter: char, quote: char, f: string) {
    delimiter in f || '\n' in f || quote in f
  }

  /** `f` with every quote character doubled (String.replace of q by qq). */
  function Escape(quote: char, f: string): (r: string)
    ensures |f| <= |r|
    ensures quote !in f ==> r == f
    decreases |f|
  {
    if |f| == 0 then []
    else EscapedChar(quote, f[0]) + Escape(quote, f[1..])
  }

  /** One character as String.replace writes it: the quote doubled, anything else as is. */
  function EscapedChar(quote: char, c: char): (e: string) {
    if c == quote then [quote, quote] else [c]
  }

  /** Collapse every doubled quote character back into one. */
  function Unescape(quote: char, s: string): (r: string)
    decreases |s|
  {
    if |s| == 0 then []
    else if |s| >= 2 && s[0] == quote && s[1] == quote then [quote] + Unescape(quote, s[2..])
    else [s[0]] + Unescape(quote, s[1..])
  }

  lemma {:induction false} UnescapeEscape(quote: char, f: string)
    ensures Unescape(quote, Escape(quote, f)) == f
    decreases |f|
  {
    if |f| > 0 {
      UnescapeEscape(quote, f[1..]);
      var rest := Escape(quote, f[1..]);
      if f[0] == quote {
        assert Escape(quote, f) == [quote, quote] + rest;
        assert ([quote, quote] + rest)[2..] == rest;
      } else {
        assert Escape(quote, f) == [f[0]] + rest;
        assert ([f[0]] + rest)[1..] == rest;
      }
      assert f == [f[0]] + f[1..];
    }
  }

  /** Every quote character of `t` is one of a doubled pair: `t` is a run of
      ordinary characters and quote-quote pairs, with no quote left over. */
  predicate QuotesDoubled(quote: char, t: string)
    decreases |t|
  {
    if |t| == 0 then true
    else if t[0] == quote then |t| >= 2 && t[1] == quote && QuotesDoubled(quote, t[2..])
    else QuotesDoubled(quote, t[1..])
  }

  /** Escaping leaves no undoubled quote. */
  lemma {:induction false} EscapeDoublesQuotes(quote: char, f: string)
    ensures QuotesDoubled(quote, Escape(quote, f))
    decreases |f|
  {
    if |f| > 0 {
      EscapeDoublesQuotes(quote, f[1..]);
      var rest := Escape(quote, f[1..]);
      if f[0] == quote {
        assert Escape(quote, f) == [quote, quote] + rest;
        assert ([quote, quote] + rest)[2..] == rest;
      } else {
        assert Escape(quote, f) == [f[0]] + rest;
        assert ([f[0]] + rest)[1..] == rest;
      }
    }
  }

  /** A text whose quotes are all doubled is the escaping of its un-escaping,
      so the two conditions together pin it down. */
  lemma {:induction false} EscapeUnescape(quote: char, t: string)
    requires QuotesDoubled(quote, t)
    ensures Escape(quote, Unescape(quote, t)) == t
    decreases |t|
  {
    if |t| > 0 {
      if t[0] == quote {
        EscapeUnescape(quote, t[2..]);
        var u := Unescape(quote, t[2..]);
        assert ([quote] + u)[0] == quote && ([quote] + u)[1..] == u;
        assert t == [quote, quote] + t[2..];
      } else {
        EscapeUnescape(quote, t[1..]);
        var u := Unescape(quote, t[1..]);
        assert ([t[0]] + u)[0] == t[0] && ([t[0]] + u)[1..] == u;
        assert t == [t[0]] + t[1..];
      }
    }
  }

  /** How one field is written. */
  function EncodeField(delimiter: char, quote: char, field: Option<string>): (r: string)
    ensures NeedsQuote(delimiter, quote, ValueOf(field)) <==> |r| > 0 && r[0] == quote
    ensures !NeedsQuote(delimiter, quote, ValueOf(field)) ==> r == ValueOf(field)
    ensures NeedsQuote(delimiter, quote, ValueOf(field)) ==>
              && 2 <= |r| && r[|r| - 1] == quote
              && QuotesDoubled(quote, r[1..|r| - 1])
              && Unescape(quote, r[1..|r| - 1]) == ValueOf(field)
  {
    var f := ValueOf(field);
    if NeedsQuote(delimiter, quote, f) then
      var r := [quote] + Escape(quote, f) + [quote];
      assert r[1..|r| - 1] == Escape(quote, f);
      UnescapeEscape(quote, f);
      EscapeDoublesQuotes(quote, f);
      r
    else
      assert |f| > 0 ==> f[0] != quote;
      f
  }

  /** The fields after the first, each preceded by the delimiter. */
  function Separated(delimiter: char, quote: char, rest: seq<Option<string>>): (out: string)
    decreases |rest|
  {
    if |rest| == 0 then ""
    else [delimiter] + EncodeField(delimiter, quote, rest[0]) + Separated(delimiter, quote, rest[1..])
  }

  /** writeRow: the encoded fields, one delimiter between neighbours, then '\n'. */
  function WriteRow(delimiter: char, quote: char, row: seq<Option<string>>): (out: string)
    ensures |out| > 0 && out[|out| - 1] == '\n'
    ensures |row| == 0 ==> out == "\n"
  {
    (if |row| == 0 then "" else EncodeField(delimiter, quote, row[0]) + Separated(delimiter, quote, row[1..])) + "\n"
  }

  // ----- the reader that inverts WriteRow -----

  datatype Parsed = Parsed(field: string, rest: string)

  /** Read the inside of a quoted field, up to the closing quote. */
  function ReadQuoted(quote: char, s: string): (r: Option<Parsed>)
    ensures r.Some? ==> |r.value.rest| < |s|
    decreases |s|
  {
    if |s| == 0 then None
    else if s[0] == quote then
      if |s| >= 2 && s[1] == quote then
        match ReadQuoted(quote, s[2..])
        case None => None
        case Some(p) => Some(Parsed([quote] + p.field, p.rest))
      else Some(Parsed("", s[1..]))
    else
      match ReadQuoted(quote, s[1..])
      case None => None
      case Some(p) => Some(Parsed([s[0]] + p.field, p.rest))
  }

  /** Read an unquoted field, up to the next delimiter or newline. */
  function ReadPlain(delimiter: char, s: string): (r: Parsed)
    ensures |r.rest| <= |s|
    decreases |s|
  {
    if |s| == 0 || s[0] == delimiter || s[0] == '\n' then Parsed("", s)
    else
      var p := ReadPlain(delimiter, s[1..]);
      Parsed([s[0]] + p.field, p.rest)
  }

  function ReadField(delimiter: char, quote: char, s: string): (r: Option<Parsed>)
    ensures r.Some? ==> |r.value.rest| <= |s|
  {
    if |s| > 0 && s[0] == quote then ReadQuoted(quote, s[1..]) else Some(ReadPlain(delimiter, s))
  }

  /** Read fields separated by the delimiter until the terminating newline. */
  function ReadFields(delimiter: char, quote: char, s: string): (r: Option<seq<string>>)
    decreases |s|
  {
    match ReadField(delimiter, quote, s)
    case None => None
    case Some(p) =>
      if p.rest == "\n" then Some([p.field])
      else if |p.rest| > 0 && p.rest[0] == delimiter then
        match ReadFields(delimiter, quote, p.rest[1..])
        case None => None
        case Some(fs) => Some([p.field] + fs)
      else None
  }

  /** A field followed by a delimiter or newline is a boundary the reader stops at. */
  predicate StartsSeparator(delimiter: char, rest: string) {
    |rest| > 0 && (rest[0] == delimiter || rest[0] == '\n')
  }

  lemma ReadQuotedDoubled(quote: char, tail: string)
    requires ReadQuoted(quote, tail).Some?
    ensures ReadQuoted(quote, [quote, quote] + tail)
            == Some(Parsed([quote] + ReadQuoted(quote, tail).value.field, ReadQuoted(quote, tail).value.rest))
  {
    assert ([quote, quote] + tail)[2..] == tail;
  }

  lemma ReadQuotedOrdinary(quote: char, c: char, tail: string)
    requires c != quote && ReadQuoted(quote, tail).Some?
    ensures ReadQuoted(quote, [c] + tail)
            == Some(Parsed([c] + ReadQuoted(quote, tail).value.field, ReadQuoted(quote, tail).value.rest))
  {
    assert ([c] + tail)[1..] == tail;
  }

  lemma ReadQuotedClosing(quote: char, rest: string)
    requires |rest| > 0 && rest[0] != quote
    ensures ReadQuoted(quote, [quote] + rest) == Some(Parsed("", rest))
  {
    assert ([quote] + rest)[1..] == rest;
  }

  /** The reader undoes the quote doubling and stops at the closing quote. */
  lemma {:induction false} ReadQuotedEscape(quote: char, f: string, rest: string)
    requires |rest| > 0 && rest[0] != quote
    ensures ReadQuoted(quote, Escape(quote, f) + ([quote] + rest)) == Some(Parsed(f, rest))
    decreases |f|, 1
  {
    if |f| == 0 {
      assert Escape(quote, f) + ([quote] + rest) == [quote] + rest;
      ReadQuotedClosing(quote, rest);
    } else {
      ReadQuotedEscapeStep(quote, f, rest);
    }
  }

  /** One character of a non-empty escaped field, then the rest of the field. */
  lemma {:induction false} ReadQuotedEscapeStep(quote: char, f: string, rest: string)
    requires |f| > 0 && |rest| > 0 && rest[0] != quote
    ensures ReadQuoted(quote, Escape(quote, f) + ([quote] + rest)) == Some(Parsed(f, rest))
    decreases |f|, 0
  {
    var tail := [quote] + rest;
    var t := Escape(quote, f[1..]) + tail;
    ReadQuotedEscape(quote, f[1..], rest);
    AppendAssoc(EscapedChar(quote, f[0]), Escape(quote, f[1..]), tail);
    if f[0] == quote {
      ReadQuotedDoubled(quote, t);
    } else {
      ReadQuotedOrdinary(quote, f[0], t);
    }
    assert [f[0]] + f[1..] == f;
  }

  lemma {:induction false} ReadPlainVerbatim(delimiter: char, f: string, rest: string)
    requires delimiter !in f && '\n' !in f && StartsSeparator(delimiter, rest)
    ensures ReadPlain(delimiter, f + rest) == Parsed(f, rest)
    decreases |f|
  {
    if |f| == 0 {
      assert f + rest == rest;
    } else {
      ReadPlainVerbatim(delimiter, f[1..], rest);
      assert (f + rest)[1..] == f[1..] + rest;
      assert [f[0]] + f[1..] == f;
    }
  }

  lemma ReadFieldQuoted(delimiter: char, quote: char, inner: string)
    ensures ReadField(delimiter, quote, [quote] + inner) == ReadQuoted(quote, inner)
  {
    assert ([quote] + inner)[1..] == inner;
  }

  /** Reading an encoded field gives back its value and stops at the separator. */
  lemma ReadEncodedField(delimiter: char, quote: char, field: Option<string>, rest: string)
    requires delimiter != quote && quote != '\n' && delimiter != '\n'
    requires StartsSeparator(delimiter, rest)
    ensures ReadField(delimiter, quote, EncodeField(delimiter, quote, field) + rest)
            == Some(Parsed(ValueOf(field), rest))
  {
    var f := ValueOf(field);
    if NeedsQuote(delimiter, quote, f) {
      var x := Escape(quote, f);
      AppendAssoc([quote] + x, [quote], rest);
      AppendAssoc([quote], x, [quote] + rest);
      ReadFieldQuoted(delimiter, quote, x + ([quote] + rest));
      ReadQuotedEscape(quote, f, rest);
    } else {
      ReadPlainVerbatim(delimiter, f, rest);
      assert (f + rest)[0] != quote;
    }
  }

  /** The field values of a row, in order (null read back as ""). */
  function Values(row: seq<Option<string>>): (r: seq<string>)
    ensures |r| == |row|
    ensures forall i | 0 <= i < |row| :: r[i] == ValueOf(row[i])
    decreases |row|
  {
    if |row| == 0 then [] else [ValueOf(row[0])] + Values(row[1..])
  }

  /** The reader stops after a field followed by the final newline. */
  lemma ReadFieldsLast(delimiter: char, quote: char, s: string, v: string)
    requires ReadField(delimiter, quote, s) == Some(Parsed(v, "\n"))
    ensures ReadFields(delimiter, quote, s) == Some([v])
  {
  }

  /** The reader continues after a field followed by a delimiter. */
  lemma ReadFieldsNext(delimiter: char, quote: char, s: string, v: string, t: string)
    requires ReadField(delimiter, quote, s) == Some(Parsed(v, [delimiter] + t))
    requires ReadFields(delimiter, quote, t).Some?
    ensures ReadFields(delimiter, quote, s) == Some([v] + ReadFields(delimiter, quote, t).value)
  {
    assert ([delimiter] + t)[1..] == t;
  }

  /** The written fields after the first, then the newline. */
  lemma SeparatedCons(delimiter: char, quote: char, rest: seq<Option<string>>)
    requires |rest| > 0
    ensures Separated(delimiter, quote, rest) + "\n"
            == [delimiter] + (EncodeField(delimiter, quote, rest[0]) + (Separated(delimiter, quote, rest[1..]) + "\n"))
  {
    var e := EncodeField(delimiter, quote, rest[0]);
    var t := Separated(delimiter, quote, rest[1..]);
    AppendAssoc([delimiter] + e, t, "\n");
    AppendAssoc([delimiter], e, t + "\n");
  }

  lemma {:induction false} ReadSeparated(delimiter: char, quote: char, first: Option<string>, rest: seq<Option<string>>)
    requires delimiter != quote && quote != '\n' && delimiter != '\n'
    ensures ReadFields(delimiter, quote, EncodeField(delimiter, quote, first) + (Separated(delimiter, quote, rest) + "\n"))
            == Some([ValueOf(first)] + Values(rest))
    decreases |rest|
  {
    var tail := Separated(delimiter, quote, rest) + "\n";
    var s := EncodeField(delimiter, quote, first) + tail;
    if |rest| == 0 {
      assert tail == "\n";
      ReadEncodedField(delimiter, quote, first, tail);
      ReadFieldsLast(delimiter, quote, s, ValueOf(first));
      assert [ValueOf(first)] + Values(rest) == [ValueOf(first)];
    } else {
      SeparatedCons(delimiter, quote, rest);
      var t := EncodeField(delimiter, quote, rest[0]) + (Separated(delimiter, quote, rest[1..]) + "\n");
      ReadEncodedField(delimiter, quote, first, tail);
      ReadSeparated(delimiter, quote, rest[0], rest[1..]);
      ReadFieldsNext(delimiter, quote, s, ValueOf(first), t);
      assert Values(rest) == [ValueOf(rest[0])] + Values(rest[1..]);
    }
  }

  /** Round trip: when the delimiter, the quote character and the newline are
      pairwise distinct, reading a written row of at least one field yields the
      field values in order (null read back as ""). */
  lemma RowRoundTrip(delimiter: char, quote: char, row: seq<Option<string>>)
    requires delimiter != quote && quote != '\n' && delimiter != '\n'
    requires |row| > 0
    ensures ReadFields(delimiter, quote, WriteRow(delimiter, quote, row)) == Some(Values(row))
  {
    AppendAssoc(EncodeField(delimiter, quote, row[0]), Separated(delimiter, quote, row[1..]), "\n");
    ReadSeparated(delimiter, quote, row[0], row[1..]);
  }

  /** A row of no fields and a row of one empty field are written alike. */
  lemma EmptyRowsCoincide(delimiter: char, quote: char)
    ensures WriteRow(delimiter, quote, []) == WriteRow(delimiter, quote, [Some("")]) == "\n"
  {
  }
}
