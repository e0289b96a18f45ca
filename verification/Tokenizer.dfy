/**
 `boost::escaped_list_separator` and the `token_iterator` that drives it: splitting
 a line into fields with quoting and backslash escapes. The escape, separator and
 quote characters are sets, as in the constructor that takes strings.
 */
module Tokenizer {
  import opened Wrappers

  datatype Syntax = Syntax(escape: set<char>, separator: set<char>, quote: set<char>)

  /** The characters with a meaning of their own. */
  predicate Special(x: Syntax, ch: char) {
    ch in x.escape || ch in x.separator || ch in x.quote
  }

  // ---------------------------------------------------------------------
  // What one call and what the whole iteration produce

  /** A field, what follows it, and whether a separator ended it; or an escape error. */
  datatype Field = Field(tok: string, rest: string, separated: bool) | BadEscape

  function Prepend(ch: char, f: Field): Field {
    match f
    case Field(tok, rest, separated) => Field([ch] + tok, rest, separated)
    case BadEscape => BadEscape
  }

  /** What an escape sequence stands for: a newline, or a special character itself. */
  function Unescape(x: Syntax, ch: char): Option<char> {
    if ch == 'n' then Some('\n')
    else if Special(x, ch) then Some(ch)
    else None
  }

  function ReadField(x: Syntax, s: string, inQuote: bool): Field
    decreases |s|
  {
    if s == [] then Field([], [], false)
    else if s[0] in x.escape then
      if |s| == 1 then BadEscape
      else match Unescape(x, s[1])
        case None => BadEscape
        case Some(ch) => Prepend(ch, ReadField(x, s[2..], inQuote))
    else if s[0] in x.separator then
      if inQuote then Prepend(s[0], ReadField(x, s[1..], inQuote)) else Field([], s[1..], true)
    else if s[0] in x.quote then ReadField(x, s[1..], !inQuote)
    else Prepend(s[0], ReadField(x, s[1..], inQuote))
  }

  lemma {:induction false} RestIsShorter(x: Syntax, s: string, inQuote: bool)
    ensures var f := ReadField(x, s, inQuote);
      f.Field? ==> (f.separated ==> |f.rest| < |s|) && (!f.separated ==> f.rest == [])
    decreases |s|
  {
    if s == [] {
    } else {
      RestIsShorter(x, s[1..], inQuote);
      RestIsShorter(x, s[1..], !inQuote);
      if |s| > 1 {
        RestIsShorter(x, s[2..], inQuote);
      }
    }
  }

  /** All tokens; `last` is the flag that announces a blank field after a final separator. */
  function Tokens(x: Syntax, s: string, last: bool): Option<seq<string>>
    decreases |s|, last
  {
    if s == [] then
      if last then Some([[]]) else Some([])
    else
      RestIsShorter(x, s, false);
      match ReadField(x, s, false)
      case BadEscape => None
      case Field(tok, rest, separated) =>
        match Tokens(x, rest, separated)
        case None => None
        case Some(more) => Some([tok] + more)
  }

  // ---------------------------------------------------------------------
  // Printing a list of fields

  /** A piece of a field, to be printed as it is, between quotes, or as the escape for a newline. */
  datatype Piece = Bare(text: string) | Quoted(text: string) | Newline

  function PieceText(piece: Piece): string {
    if piece.Newline? then ['\n'] else piece.text
  }

  /** An escape character precedes escape and quote characters, and separators outside quotes. */
  function EscapeOne(x: Syntax, e: char, ch: char, inQuote: bool): string {
    if ch in x.escape || ch in x.quote || (ch in x.separator && !inQuote) then [e, ch] else [ch]
  }

  function Escape(x: Syntax, e: char, text: string, inQuote: bool): string {
    if text == [] then [] else EscapeOne(x, e, text[0], inQuote) + Escape(x, e, text[1..], inQuote)
  }

  function PrintPiece(x: Syntax, e: char, q: char, piece: Piece): string {
    match piece
    case Bare(text) => Escape(x, e, text, false)
    case Quoted(text) => [q] + (Escape(x, e, text, true) + [q])
    case Newline => [e, 'n']
  }

  /** A field is printed piece by piece, in any division into bare and quoted pieces. */
  function Print(x: Syntax, e: char, q: char, pieces: seq<Piece>): string {
    if pieces == [] then [] else PrintPiece(x, e, q, pieces[0]) + Print(x, e, q, pieces[1..])
  }

  function Join(x: Syntax, e: char, c: char, q: char, fields: seq<seq<Piece>>): string {
    if fields == [] then []
    else if |fields| == 1 then Print(x, e, q, fields[0])
    else Print(x, e, q, fields[0]) + ([c] + Join(x, e, c, q, fields[1..]))
  }

  /** The text of a field. */
  function Text(pieces: seq<Piece>): string {
    if pieces == [] then [] else PieceText(pieces[0]) + Text(pieces[1..])
  }

  function Texts(fields: seq<seq<Piece>>): seq<string> {
    if fields == [] then [] else [Text(fields[0])] + Texts(fields[1..])
  }

  predicate Unquoted(pieces: seq<Piece>) {
    forall i :: 0 <= i < |pieces| ==> !pieces[i].Quoted?
  }

  predicate AllUnquoted(fields: seq<seq<Piece>>) {
    forall i :: 0 <= i < |fields| ==> Unquoted(fields[i])
  }

  /** The separator is not read as an escape, and no special character is read as a newline. */
  predicate Separable(x: Syntax, c: char) {
    c !in x.escape && !Special(x, 'n')
  }

  /** The quote is read as nothing else. */
  predicate Quotable(x: Syntax, q: char) {
    q in x.quote && q !in x.escape && q !in x.separator
  }

  lemma ReadOneEscaped(x: Syntax, e: char, ch: char, tail: string, inQuote: bool)
    requires e in x.escape && !Special(x, 'n')
    ensures ReadField(x, EscapeOne(x, e, ch, inQuote) + tail, inQuote) == Prepend(ch, ReadField(x, tail, inQuote))
  {
  }

  lemma {:induction false} ReadEscaped(x: Syntax, e: char, text: string, tail: string, inQuote: bool)
    requires e in x.escape && !Special(x, 'n')
    ensures ReadField(x, Escape(x, e, text, inQuote) + tail, inQuote) == PrependAll(text, ReadField(x, tail, inQuote))
    decreases |text|
  {
    hide ReadField, EscapeOne, Special;
    if text == [] {
      assert Escape(x, e, text, inQuote) + tail == tail;
      PrependNothing(ReadField(x, tail, inQuote));
    } else {
      var head, rest := EscapeOne(x, e, text[0], inQuote), Escape(x, e, text[1..], inQuote);
      ReadEscaped(x, e, text[1..], tail, inQuote);
      ReadOneEscaped(x, e, text[0], rest + tail, inQuote);
      assert head + rest + tail == head + (rest + tail);
      PrependSplit([text[0]], text[1..], ReadField(x, tail, inQuote));
    }
  }

  /** A piece is read as its text: between quotes separators lose their meaning, and an escaped `n` is a newline. */
  lemma ReadPiece(x: Syntax, e: char, q: char, piece: Piece, tail: string)
    requires e in x.escape && !Special(x, 'n') && (piece.Quoted? ==> Quotable(x, q))
    ensures ReadField(x, PrintPiece(x, e, q, piece) + tail, false)
         == PrependAll(PieceText(piece), ReadField(x, tail, false))
  {
    if piece.Bare? {
      ReadEscaped(x, e, piece.text, tail, false);
    } else if piece.Newline? {
      assert ([e, 'n'] + tail)[2..] == tail;
      assert [] + ['\n'] == ['\n'];
    } else {
      var inside := Escape(x, e, piece.text, true);
      var s := PrintPiece(x, e, q, piece) + tail;
      assert s[1..] == inside + ([q] + tail);
      assert ([q] + tail)[1..] == tail;
      ReadEscaped(x, e, piece.text, [q] + tail, true);
    }
  }

  lemma {:induction false} ReadPrinted(x: Syntax, e: char, q: char, pieces: seq<Piece>, tail: string)
    requires e in x.escape && !Special(x, 'n')
    requires Quotable(x, q) || Unquoted(pieces)
    ensures ReadField(x, Print(x, e, q, pieces) + tail, false)
         == PrependAll(Text(pieces), ReadField(x, tail, false))
    decreases |pieces|
  {
    hide ReadField, PrintPiece;
    if pieces == [] {
      assert Print(x, e, q, pieces) + tail == tail;
      PrependNothing(ReadField(x, tail, false));
    } else {
      var head, rest := PrintPiece(x, e, q, pieces[0]), Print(x, e, q, pieces[1..]);
      ReadPrinted(x, e, q, pieces[1..], tail);
      ReadPiece(x, e, q, pieces[0], rest + tail);
      assert head + rest + tail == head + (rest + tail);
      PrependSplit(PieceText(pieces[0]), Text(pieces[1..]), ReadField(x, tail, false));
    }
  }

  /** The field before a separator, or before the end. */
  lemma ReadFirst(x: Syntax, e: char, c: char, q: char, pieces: seq<Piece>, rest: string)
    requires e in x.escape && c in x.separator && Separable(x, c)
    requires Quotable(x, q) || Unquoted(pieces)
    requires rest == [] || rest[0] == c
    ensures ReadField(x, Print(x, e, q, pieces) + rest, false)
         == Field(Text(pieces), if rest == [] then [] else rest[1..], rest != [])
  {
    ReadPrinted(x, e, q, pieces, rest);
    assert Text(pieces) + [] == Text(pieces);
  }

  lemma {:induction false} TokensOfJoin(x: Syntax, e: char, c: char, q: char, fields: seq<seq<Piece>>, last: bool)
    requires e in x.escape && c in x.separator && Separable(x, c)
    requires Quotable(x, q) || AllUnquoted(fields)
    requires fields != [] && (Join(x, e, c, q, fields) != [] || last)
    ensures Tokens(x, Join(x, e, c, q, fields), last) == Some(Texts(fields))
    decreases |fields|
  {
    var s, first := Join(x, e, c, q, fields), Print(x, e, q, fields[0]);
    if |fields| == 1 {
      ReadFirst(x, e, c, q, fields[0], []);
      assert first + [] == s;
      assert Texts(fields) == [Text(fields[0])] + Texts([]) == [Text(fields[0])];
      if s == [] {
        NothingPrinted(x, e, q, fields[0]);
      } else {
        OneToken(x, s, Text(fields[0]), last);
      }
    } else {
      var rest := [c] + Join(x, e, c, q, fields[1..]);
      ReadFirst(x, e, c, q, fields[0], rest);
      TokensOfJoin(x, e, c, q, fields[1..], true);
      assert rest[1..] == Join(x, e, c, q, fields[1..]);
      assert s == first + rest && s[|first|] == c;
    }
  }

  /** Tokenizing undoes quoting, escaping and joining, for all lists of fields that do not print as nothing. */
  ghost predicate RoundTrips(x: Syntax, e: char, c: char, q: char) {
    forall fields: seq<seq<Piece>> :: Join(x, e, c, q, fields) != [] ==>
      Tokens(x, Join(x, e, c, q, fields), false) == Some(Texts(fields))
  }

  /** The same for fields without quotes. */
  ghost predicate BareRoundTrips(x: Syntax, e: char, c: char, q: char) {
    forall fields: seq<seq<Piece>> :: AllUnquoted(fields) && Join(x, e, c, q, fields) != [] ==>
      Tokens(x, Join(x, e, c, q, fields), false) == Some(Texts(fields))
  }

  /** An escape character that is the last, or precedes neither `n` nor a special character, makes the text throw. */
  lemma {:induction false} BadEscapeThrows(x: Syntax, e: char, c: char, q: char, fields: seq<seq<Piece>>, bad: string,
                                           last: bool)
    requires e in x.escape && c in x.separator && Separable(x, c) && (Quotable(x, q) || AllUnquoted(fields))
    requires fields != [] && BadEscapeAt(x, bad)
    ensures Tokens(x, Join(x, e, c, q, fields) + bad, last) == None
    decreases |fields|
  {
    hide ReadField, Tokens, Print, BadEscapeAt;
    var first := Print(x, e, q, fields[0]);
    if |fields| == 1 {
      ReadPrinted(x, e, q, fields[0], bad);
      BadEscapeRead(x, bad);
      NoToken(x, first + bad, last);
    } else {
      var rest := Join(x, e, c, q, fields[1..]) + bad;
      BadEscapeThrows(x, e, c, q, fields[1..], bad, true);
      ReadFirst(x, e, c, q, fields[0], [c] + rest);
      assert ([c] + rest)[1..] == rest;
      assert Join(x, e, c, q, fields) + bad == first + ([c] + rest);
      NoToken(x, first + ([c] + rest), last);
    }
  }

  predicate BadEscapeAt(x: Syntax, s: string) {
    s != [] && s[0] in x.escape && (|s| == 1 || (s[1] != 'n' && !Special(x, s[1])))
  }

  lemma BadEscapeRead(x: Syntax, bad: string)
    requires BadEscapeAt(x, bad)
    ensures bad != [] && ReadField(x, bad, false) == BadEscape
  {
  }

  lemma NoToken(x: Syntax, s: string, last: bool)
    requires s != []
    requires match ReadField(x, s, false)
      case BadEscape => true
      case Field(tok, rest, separated) => separated && Tokens(x, rest, true) == None
    ensures Tokens(x, s, last) == None
  {
  }

  /** A quote that is still open at the end of the text is closed by it. */
  lemma OpenQuoteEnds(x: Syntax, e: char, q: char, pieces: seq<Piece>, text: string, last: bool)
    requires e in x.escape && !Special(x, 'n') && Quotable(x, q)
    ensures Tokens(x, Print(x, e, q, pieces) + ([q] + Escape(x, e, text, true)), last) == Some([Text(pieces) + text])
  {
    var inside := Escape(x, e, text, true);
    assert ([q] + inside)[1..] == inside == inside + [];
    assert text + [] == text;
    ReadEscaped(x, e, text, [], true);
    ReadPrinted(x, e, q, pieces, [q] + inside);
    OneToken(x, Print(x, e, q, pieces) + ([q] + inside), Text(pieces) + text, last);
  }

  /** Only the empty list and a single blank field without quotes print as nothing, which tokenizes to no field. */
  lemma SingleBlankField(x: Syntax, e: char, c: char, q: char, fields: seq<seq<Piece>>)
    ensures Join(x, e, c, q, fields) == [] ==> fields == [] || Texts(fields) == [[]]
    ensures Join(x, e, c, q, [[]]) == [] && Tokens(x, [], false) == Some([])
  {
    if |fields| == 1 && Join(x, e, c, q, fields) == [] {
      NothingPrinted(x, e, q, fields[0]);
      assert fields[1..] == [];
    }
  }

  lemma {:induction false} NothingPrinted(x: Syntax, e: char, q: char, pieces: seq<Piece>)
    requires Print(x, e, q, pieces) == []
    ensures Text(pieces) == []
    decreases |pieces|
  {
    if pieces == [] {
    } else {
      NothingPrinted(x, e, q, pieces[1..]);
    }
  }

  /**
   Fields without quotes round-trip exactly when the separator is not also an escape
   character and `n` is not special. The characters need not be distinct otherwise.
   */
  lemma BareRoundTripsExactly(x: Syntax, e: char, c: char, q: char)
    requires e in x.escape && c in x.separator
    ensures BareRoundTrips(x, e, c, q) <==> Separable(x, c)
  {
    if Separable(x, c) {
      forall fields: seq<seq<Piece>> | AllUnquoted(fields) && Join(x, e, c, q, fields) != []
        ensures Tokens(x, Join(x, e, c, q, fields), false) == Some(Texts(fields))
      {
        TokensOfJoin(x, e, c, q, fields, false);
      }
    } else {
      var fields := Inseparable(x, e, c, q);
    }
  }

  /** Fields with any pieces quoted do so exactly when, in addition, the quote is neither escape nor separator. */
  lemma RoundTripsExactly(x: Syntax, e: char, c: char, q: char)
    requires e in x.escape && c in x.separator && q in x.quote
    ensures RoundTrips(x, e, c, q) <==> Separable(x, c) && Quotable(x, q)
  {
    if !Separable(x, c) {
      var fields := Inseparable(x, e, c, q);
    } else if !Quotable(x, q) {
      Unquotable(x, e, c, q);
    } else {
      forall fields: seq<seq<Piece>> | Join(x, e, c, q, fields) != []
        ensures Tokens(x, Join(x, e, c, q, fields), false) == Some(Texts(fields))
      {
        TokensOfJoin(x, e, c, q, fields, false);
      }
    }
  }

  /** Otherwise two blank fields, or the field `n`, are read as something else. */
  lemma Inseparable(x: Syntax, e: char, c: char, q: char) returns (fields: seq<seq<Piece>>)
    requires e in x.escape && c in x.separator && !Separable(x, c)
    ensures AllUnquoted(fields) && Join(x, e, c, q, fields) != []
    ensures Tokens(x, Join(x, e, c, q, fields), false) != Some(Texts(fields))
  {
    if c in x.escape {
      fields := [[], []];
      assert Join(x, e, c, q, fields) == [c];
      assert ReadField(x, [c], false) == BadEscape;
    } else {
      fields := [[Bare(['n'])]];
      OnePiece(x, e, c, q, Bare(['n']));
      assert Escape(x, e, ['n'], false) == [e, 'n'] + Escape(x, e, [], false) == [e, 'n'];
      assert [e, 'n'][2..] == [];
      assert ReadField(x, [e, 'n'], false) == Field(['\n'], [], false);
      OneToken(x, [e, 'n'], ['\n'], false);
      assert ['\n'][0] != ['n'][0];
    }
  }

  lemma OnePiece(x: Syntax, e: char, c: char, q: char, piece: Piece)
    ensures Join(x, e, c, q, [[piece]]) == PrintPiece(x, e, q, piece)
    ensures Texts([[piece]]) == [PieceText(piece)]
  {
    assert Print(x, e, q, [piece]) == PrintPiece(x, e, q, piece) + Print(x, e, q, []);
    assert [piece][1..] == [] && PieceText(piece) + [] == PieceText(piece);
    assert Text([piece]) == PieceText(piece);
    assert [[piece]][1..] == [] && Texts([[piece]]) == [Text([piece])] + Texts([]);
  }

  lemma OneToken(x: Syntax, s: string, tok: string, last: bool)
    requires s != [] && ReadField(x, s, false) == Field(tok, [], false)
    ensures Tokens(x, s, last) == Some([tok])
  {
    assert Tokens(x, [], false) == Some([]);
    assert [tok] + [] == [tok];
  }

  lemma Unquotable(x: Syntax, e: char, c: char, q: char)
    requires e in x.escape && q in x.quote && Separable(x, c) && !Quotable(x, q)
    ensures !RoundTrips(x, e, c, q)
  {
    var fields := [[Quoted([])]];
    OnePiece(x, e, c, q, Quoted([]));
    assert [q] + ([] + [q]) == [q, q];
    assert Join(x, e, c, q, fields) == [q, q] && Texts(fields) == [[]];
    assert [q, q][2..] == [] && [q, q][1..] == [q] && [q][1..] == [];
    if q in x.escape {
      assert ReadField(x, [q, q], false) == Field([q], [], false);
      OneToken(x, [q, q], [q], false);
      assert |[q]| == 1;
    } else {
      assert ReadField(x, [q, q], false) == Field([], [q], true);
      assert ReadField(x, [q], false) == Field([], [], true);
      assert Tokens(x, [], true) == Some([[]]);
      assert |Tokens(x, [q], true).value| == 2;
    }
  }

  // ---------------------------------------------------------------------

  datatype Call = Token(tok: string) | NoMore | Throws

  class EscapedListSeparator {
    const syntax: Syntax
    var last: bool

    constructor (syntax: Syntax)
      ensures this.syntax == syntax && !last
    {
      this.syntax := syntax;
      last := false;
    }

    method Reset()
      modifies this
      ensures !last
    {
      last := false;
    }

    /** `do_escape`: `next` is at an escape character and moves to the character it escapes. */
    method DoEscape(text: string, next: nat) returns (ch: Option<char>, after: nat)
      requires next < |text|
      ensures after == next + 1
      ensures ch == if next + 1 == |text| then None else Unescape(syntax, text[next + 1])
    {
      after := next + 1;
      if after == |text| {
        return None, after;
      }
      if text[after] == 'n' {
        ch := Some('\n');
      } else if text[after] in syntax.quote {
        ch := Some(text[after]);
      } else if text[after] in syntax.separator {
        ch := Some(text[after]);
      } else if text[after] in syntax.escape {
        ch := Some(text[after]);
      } else {
        ch := None;
      }
    }

    /** `operator()`: every token produced either advances `next` or uses up the `last` flag. */
    method Next(text: string, start: nat) returns (r: Call, next: nat)
      requires start <= |text|
      modifies this
      ensures start <= next <= |text|
      ensures start == |text| ==> !last && next == start && r == if old(last) then Token([]) else NoMore
      ensures start < |text| ==>
        match ReadField(syntax, text[start..], false)
        case BadEscape => r == Throws
        case Field(tok, rest, separated) => r == Token(tok) && rest == text[next..] && last == separated && next > start
    {
      next := start;
      var tok: string := [];
      var inQuote := false;
      if next == |text| {
        if last {
          last := false;
          return Token(tok), next;
        }
        return NoMore, next;
      }
      last := false;
      ghost var whole := ReadField(syntax, text[start..], false);
      while next < |text|
        invariant start <= next <= |text| && !last
        invariant whole == PrependAll(tok, ReadField(syntax, text[next..], inQuote))
        decreases |text| - next
      {
        ghost var here := text[next..];
        assert here[1..] == text[next + 1..];
        if text[next] in syntax.escape {
          var ch, after := DoEscape(text, next);
          if ch.None? {
            return Throws, next;
          }
          assert here[2..] == text[next + 2..];
          PrependAllOne(tok, ch.value, ReadField(syntax, here[2..], inQuote));
          tok := tok + [ch.value];
          next := after;
        } else if text[next] in syntax.separator {
          if !inQuote {
            next := next + 1;
            last := true;
            assert tok + [] == tok;
            return Token(tok), next;
          }
          PrependAllOne(tok, text[next], ReadField(syntax, here[1..], inQuote));
          tok := tok + [text[next]];
        } else if text[next] in syntax.quote {
          inQuote := !inQuote;
        } else {
          PrependAllOne(tok, text[next], ReadField(syntax, here[1..], inQuote));
          tok := tok + [text[next]];
        }
        next := next + 1;
      }
      assert tok + [] == tok;
      r := Token(tok);
    }
  }

  function PrependAll(tok: string, f: Field): Field {
    match f
    case Field(t, rest, separated) => Field(tok + t, rest, separated)
    case BadEscape => BadEscape
  }

  lemma PrependNothing(f: Field)
    ensures PrependAll([], f) == f
  {
    if f.Field? {
      assert [] + f.tok == f.tok;
    }
  }

  lemma PrependSplit(a: string, b: string, f: Field)
    ensures PrependAll(a, PrependAll(b, f)) == PrependAll(a + b, f)
    ensures |a| == 1 ==> Prepend(a[0], PrependAll(b, f)) == PrependAll(a + b, f)
  {
    if f.Field? {
      assert a + (b + f.tok) == a + b + f.tok;
      assert |a| == 1 ==> a == [a[0]];
    }
  }

  lemma PrependAllOne(tok: string, ch: char, f: Field)
    ensures PrependAll(tok, Prepend(ch, f)) == PrependAll(tok + [ch], f)
  {
  }

  /** `token_iterator` over a text: `initialize` when constructed, then `increment` while valid. */
  class TokenIterator {
    const f: EscapedListSeparator
    const text: string
    var begin: nat
    var valid: bool
    var threw: bool
    var tok: string

    ghost predicate Valid()
      reads this
    {
      begin <= |text|
    }

    constructor (f: EscapedListSeparator, text: string)
      ensures Valid() && begin == 0 && !valid && !threw
      ensures this.f == f && this.text == text
    {
      this.f, this.text := f, text;
      begin, valid, threw, tok := 0, false, false, [];
    }

    method Initialize()
      requires Valid()
      modifies this, f
      ensures Valid()
      ensures old(valid) ==> unchanged(this) && unchanged(f)
      ensures !old(valid) && old(begin) == |text| ==> !valid && !f.last && begin == old(begin) && threw == old(threw)
      ensures !old(valid) && old(begin) < |text| && !old(threw) ==> Stepped(old(begin), false)
    {
      if valid {
        return;
      }
      f.Reset();
      if begin != |text| {
        Increment();
      } else {
        valid := false;
      }
    }

    method Increment()
      requires Valid()
      modifies this, f
      ensures Valid()
      ensures !old(threw) ==> Stepped(old(begin), old(f.last))
    {
      var r, next := f.Next(text, begin);
      begin := next;
      match r {
        case Token(t) => valid, tok := true, t;
        case NoMore => valid, tok := false, [];
        case Throws => valid, threw := false, true;
      }
    }

    /** The effect of one call of the separator at `from`, with the flag as given. */
    ghost predicate Stepped(from: nat, last: bool)
      reads this, f
      requires from <= |text| && begin <= |text|
    {
      if from == |text| then
        begin == from && !f.last && !threw && valid == last && tok == []
      else match ReadField(f.syntax, text[from..], false)
        case BadEscape => threw && !valid && begin >= from
        case Field(t, rest, separated) =>
          valid && !threw && tok == t && rest == text[begin..] && f.last == separated && begin > from
    }
  }

  /** Iterating over a text yields its tokens, or throws where the text has a bad escape. */
  method Tokenize(syntax: Syntax, text: string) returns (tokens: Option<seq<string>>)
    ensures tokens == Tokens(syntax, text, false)
  {
    var f := new EscapedListSeparator(syntax);
    var it := new TokenIterator(f, text);
    var found: seq<string> := [];
    assert text[0..] == text;
    TokensStep(syntax, text, false, found);
    NoTokensYet(Tokens(syntax, text, false));
    it.Initialize();
    while it.valid
      invariant it.f == f && it.text == text && f.syntax == syntax
      invariant it.Valid() && fresh(it) && fresh(f)
      invariant it.threw ==> !it.valid && Tokens(syntax, text, false) == None
      invariant it.valid ==>
        Tokens(syntax, text, false) == PrependTokens(found + [it.tok], Tokens(syntax, text[it.begin..], f.last))
      invariant !it.valid && !it.threw ==> Tokens(syntax, text, false) == Some(found)
      decreases |text| - it.begin, it.valid, f.last
    {
      ghost var rest, last := text[it.begin..], f.last;
      found := found + [it.tok];
      TokensStep(syntax, rest, last, found);
      it.Increment();
    }
    tokens := if it.threw then None else Some(found);
  }

  function PrependTokens(found: seq<string>, more: Option<seq<string>>): Option<seq<string>> {
    match more
    case None => None
    case Some(ts) => Some(found + ts)
  }

  lemma NoTokensYet(more: Option<seq<string>>)
    ensures PrependTokens([], more) == more
  {
    if more.Some? {
      assert [] + more.value == more.value;
    }
  }

  /** One more call of the separator on the rest of the text. */
  lemma TokensStep(x: Syntax, s: string, last: bool, found: seq<string>)
    ensures s == [] && !last ==> PrependTokens(found, Tokens(x, s, last)) == Some(found)
    ensures s == [] && last ==>
      PrependTokens(found, Tokens(x, s, last)) == PrependTokens(found + [[]], Tokens(x, s, false))
    ensures s != [] ==>
      match ReadField(x, s, false)
      case BadEscape => PrependTokens(found, Tokens(x, s, last)) == None
      case Field(tok, rest, separated) =>
        (|rest| < |s|) &&
        PrependTokens(found, Tokens(x, s, last)) == PrependTokens(found + [tok], Tokens(x, rest, separated))
  {
    RestIsShorter(x, s, false);
    assert found + [] == found;
    assert (found + [[]]) + [] == found + [[]];
    if s != [] && ReadField(x, s, false).Field? {
      var f := ReadField(x, s, false);
      var more := Tokens(x, f.rest, f.separated);
      if more.Some? {
        assert found + ([f.tok] + more.value) == (found + [f.tok]) + more.value;
      }
    }
  }
}
