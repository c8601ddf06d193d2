/** The fragment of SQL boolean expressions needed to give the availability query a meaning: a lexer over
    characters and a parser in which AND binds tighter than OR. */
module Sql {
  import opened Wrappers

  datatype Token = Symbol(c: char) | Word(word: string) | Text(text: string) | Garbage

  predicate IsWordChar(c: char) {
    'a' <= c <= 'z' || 'A' <= c <= 'Z' || '0' <= c <= '9' || c == '_'
  }

  predicate IsSymbol(c: char) {
    c in "()=<>?,-"
  }

  /** The length of the longest prefix of word characters. */
  function WordLength(s: string): (n: nat)
    ensures n <= |s|
  {
    if s == "" || !IsWordChar(s[0]) then 0 else 1 + WordLength(s[1..])
  }

  /** The position of the first quote, or the length when there is none. */
  function QuoteAt(s: string): (n: nat)
    ensures n <= |s|
  {
    if s == "" || s[0] == '\'' then 0 else 1 + QuoteAt(s[1..])
  }

  function Lex(s: string): seq<Token>
    decreases |s|
  {
    if s == "" then []
    else if s[0] == ' ' then Lex(s[1..])
    else if IsSymbol(s[0]) then [Symbol(s[0])] + Lex(s[1..])
    else if IsWordChar(s[0]) then [Word(s[..WordLength(s)])] + Lex(s[WordLength(s)..])
    else if s[0] == '\'' then
      var n := QuoteAt(s[1..]);
      if n == |s| - 1 || '\\' in s[1..][..n] then [Garbage] else [Text(s[1..][..n])] + Lex(s[1..][n + 1..])
    else [Garbage]
  }

  // ---------------------------------------------------------------------------------------------
  // Spelling tokens

  datatype Piece = Space | Tok(token: Token)

  function SpellPiece(p: Piece): string {
    match p
    case Space => " "
    case Tok(Symbol(c)) => [c]
    case Tok(Word(w)) => w
    case Tok(Text(t)) => "'" + t + "'"
    case Tok(Garbage) => "\\"
  }

  function Spell(ps: seq<Piece>): string {
    if ps == [] then "" else SpellPiece(ps[0]) + Spell(ps[1..])
  }

  function Tokens(ps: seq<Piece>): seq<Token> {
    if ps == [] then []
    else (if ps[0].Tok? then [ps[0].token] else []) + Tokens(ps[1..])
  }

  predicate IsWord(w: string) {
    w != "" && forall i :: 0 <= i < |w| ==> IsWordChar(w[i])
  }

  /** Text that can stand between quotes: it contains neither a quote nor an escape character. */
  predicate Quotable(t: string) {
    '\'' !in t && '\\' !in t
  }

  predicate Plain(p: Piece) {
    match p
    case Space => true
    case Tok(Symbol(c)) => IsSymbol(c)
    case Tok(Word(w)) => IsWord(w)
    case Tok(Text(t)) => Quotable(t)
    case Tok(Garbage) => false
  }

  predicate WordAt(ps: seq<Piece>, i: nat) {
    i < |ps| && ps[i].Tok? && ps[i].token.Word?
  }

  /** Pieces that read back as themselves: text holds no quote and no two words touch. */
  predicate Readable(ps: seq<Piece>) {
    && (forall i :: 0 <= i < |ps| ==> Plain(ps[i]))
    && (forall i: nat :: i < |ps| ==> !(WordAt(ps, i) && WordAt(ps, i + 1)))
  }

  /** Readable pieces that start and end with something other than a word can be put side by side. */
  predicate Detached(ps: seq<Piece>) {
    Readable(ps) && !WordAt(ps, 0) && (ps != [] ==> !WordAt(ps, |ps| - 1))
  }

  lemma ReadableConcat(ps: seq<Piece>, qs: seq<Piece>)
    requires Readable(ps) && Readable(qs)
    requires (ps != [] ==> !WordAt(ps, |ps| - 1)) || !WordAt(qs, 0)
    ensures Readable(ps + qs)
  {
    var all := ps + qs;
    forall i: nat | i < |all|
      ensures Plain(all[i]) && !(WordAt(all, i) && WordAt(all, i + 1))
    {
      if i < |ps| {
        assert Plain(ps[i]) && !(WordAt(ps, i) && WordAt(ps, i + 1));
        if i == |ps| - 1 {
          assert WordAt(all, i + 1) ==> WordAt(qs, 0);
        }
      } else {
        assert Plain(qs[i - |ps|]) && !(WordAt(qs, i - |ps|) && WordAt(qs, i - |ps| + 1));
      }
    }
  }

  lemma DetachedConcat(ps: seq<Piece>, qs: seq<Piece>)
    requires Detached(ps) && Detached(qs)
    ensures Detached(ps + qs)
  {
    ReadableConcat(ps, qs);
    var all := ps + qs;
    if ps == [] {
      assert all == qs;
    }
    if qs == [] {
      assert all == ps;
    } else {
      assert all[|all| - 1] == qs[|qs| - 1] && !WordAt(qs, |qs| - 1);
    }
  }

  lemma {:induction false} WordLengthIs(w: string, rest: string)
    requires forall i :: 0 <= i < |w| ==> IsWordChar(w[i])
    requires rest != "" ==> !IsWordChar(rest[0])
    ensures WordLength(w + rest) == |w|
  {
    if w == "" {
      assert w + rest == rest;
    } else {
      assert (w + rest)[1..] == w[1..] + rest;
      WordLengthIs(w[1..], rest);
    }
  }

  lemma {:induction false} QuoteAtIs(t: string, rest: string)
    requires '\'' !in t
    ensures QuoteAt(t + "'" + rest) == |t|
  {
    var s := t + "'" + rest;
    if t != "" {
      assert s[0] == t[0] && t[0] in t && s[1..] == t[1..] + "'" + rest;
      QuoteAtIs(t[1..], rest);
    }
  }

  lemma LexWord(w: string, rest: string)
    requires IsWord(w) && (rest != "" ==> !IsWordChar(rest[0]))
    ensures Lex(w + rest) == [Word(w)] + Lex(rest)
  {
    WordLengthIs(w, rest);
    assert (w + rest)[..|w|] == w && (w + rest)[|w|..] == rest;
    assert IsWordChar((w + rest)[0]);
  }

  lemma LexText(t: string, rest: string)
    requires Quotable(t)
    ensures Lex("'" + t + "'" + rest) == [Text(t)] + Lex(rest)
  {
    var s := "'" + t + "'" + rest;
    QuoteAtIs(t, rest);
    assert s[1..] == t + "'" + rest;
    assert s[1..][..|t|] == t && s[1..][|t| + 1..] == rest;
  }

  /** Lexing undoes spelling. */
  lemma {:induction false} LexSpell(ps: seq<Piece>)
    requires Readable(ps)
    ensures Lex(Spell(ps)) == Tokens(ps)
  {
    if ps != [] {
      var rest := Spell(ps[1..]);
      assert Readable(ps[1..]) by {
        forall i: nat | i < |ps[1..]|
          ensures Plain(ps[1..][i]) && !(WordAt(ps[1..], i) && WordAt(ps[1..], i + 1))
        {
          assert Plain(ps[i + 1]) && !(WordAt(ps, i + 1) && WordAt(ps, i + 2));
        }
      }
      LexSpell(ps[1..]);
      assert Plain(ps[0]);
      match ps[0]
      case Space => assert (" " + rest)[1..] == rest;
      case Tok(Symbol(c)) => assert ([c] + rest)[1..] == rest;
      case Tok(Text(t)) => LexText(t, rest);
      case Tok(Word(w)) =>
        assert WordAt(ps, 0) && !WordAt(ps, 1);
        if |ps| > 1 {
          assert Plain(ps[1]) && rest == SpellPiece(ps[1]) + Spell(ps[1..][1..]);
        }
        LexWord(w, rest);
      case Tok(Garbage) =>
    }
  }

  lemma SpellAt(ps: seq<Piece>, i: nat)
    requires i < |ps|
    ensures Spell(ps[i..]) == SpellPiece(ps[i]) + Spell(ps[i + 1..])
  {
    assert ps[i..][1..] == ps[i + 1..];
  }

  lemma TokensAt(ps: seq<Piece>, i: nat)
    requires i < |ps|
    ensures Tokens(ps[i..]) == (if ps[i].Tok? then [ps[i].token] else []) + Tokens(ps[i + 1..])
  {
    assert ps[i..][1..] == ps[i + 1..];
  }

  lemma {:induction false} SpellConcat(ps: seq<Piece>, qs: seq<Piece>)
    ensures Spell(ps + qs) == Spell(ps) + Spell(qs)
  {
    if ps == [] {
      assert ps + qs == qs;
    } else {
      assert (ps + qs)[1..] == ps[1..] + qs;
      SpellConcat(ps[1..], qs);
    }
  }

  lemma {:induction false} TokensConcat(ps: seq<Piece>, qs: seq<Piece>)
    ensures Tokens(ps + qs) == Tokens(ps) + Tokens(qs)
  {
    if ps == [] {
      assert ps + qs == qs;
    } else {
      assert (ps + qs)[1..] == ps[1..] + qs;
      TokensConcat(ps[1..], qs);
    }
  }

  lemma TokensOfSix(a: seq<Piece>, b: seq<Piece>, c: seq<Piece>, d: seq<Piece>, e: seq<Piece>, f: seq<Piece>)
    ensures Tokens(a + (b + (c + (d + (e + f)))))
            == Tokens(a) + (Tokens(b) + (Tokens(c) + (Tokens(d) + (Tokens(e) + Tokens(f)))))
  {
    TokensConcat(e, f);
    TokensConcat(d, e + f);
    TokensConcat(c, d + (e + f));
    TokensConcat(b, c + (d + (e + f)));
    TokensConcat(a, b + (c + (d + (e + f))));
  }

  /** The pairs of neighbours meet in something other than a word on at least one side. */
  lemma ReadableOfSix(a: seq<Piece>, b: seq<Piece>, c: seq<Piece>, d: seq<Piece>, e: seq<Piece>, f: seq<Piece>)
    requires Readable(a) && Readable(b) && Readable(c) && Readable(d) && Readable(e) && Readable(f)
    requires b != [] && c != [] && d != [] && e != [] && f != []
    requires !WordAt(b, 0) && !WordAt(c, 0) && !WordAt(d, 0) && !WordAt(d, |d| - 1) && !WordAt(f, 0)
    ensures Readable(a + (b + (c + (d + (e + f)))))
  {
    ReadableConcat(e, f);
    ReadableConcat(d, e + f);
    ReadableConcat(c, d + (e + f));
    ReadableConcat(b, c + (d + (e + f)));
    ReadableConcat(a, b + (c + (d + (e + f))));
  }

  lemma LexThree(a: seq<Piece>, b: seq<Piece>, c: seq<Piece>)
    requires Readable(a) && a != [] && !WordAt(a, |a| - 1) && Detached(b) && Readable(c) && !WordAt(c, 0)
    ensures Lex(Spell(a) + Spell(b) + Spell(c)) == Tokens(a) + Tokens(b) + Tokens(c)
  {
    ReadableConcat(a, b);
    var ab := a + b;
    assert ab[|ab| - 1] == if b == [] then a[|a| - 1] else b[|b| - 1];
    ReadableConcat(ab, c);
    SpellConcat(a, b);
    SpellConcat(ab, c);
    TokensConcat(a, b);
    TokensConcat(ab, c);
    LexSpell(ab + c);
  }

  // ---------------------------------------------------------------------------------------------
  // Parsing

  datatype Expr =
    | Fresh                                  // last_seen_active > now() - interval ? second
    | Mode                                   // ? in (extra_info, '')
    | Equals(column: string, literal: string)
    | Both(left: Expr, right: Expr)
    | Either(left: Expr, right: Expr)

  const FRESH := [Word("last_seen_active"), Symbol('>'), Word("now"), Symbol('('), Symbol(')'), Symbol('-'),
                  Word("interval"), Symbol('?'), Word("second")]
  const MODE := [Symbol('?'), Word("in"), Symbol('('), Word("extra_info"), Symbol(','), Text(""), Symbol(')')]

  type Parsed = Option<(Expr, seq<Token>)>

  function ParsePrimary(ts: seq<Token>): (r: Parsed)
    ensures r.Some? ==> |r.value.1| < |ts|
    decreases |ts|, 0
  {
    if FRESH <= ts then Some((Fresh, ts[|FRESH|..]))
    else if MODE <= ts then Some((Mode, ts[|MODE|..]))
    else if |ts| >= 3 && ts[0].Word? && ts[1] == Symbol('=') && ts[2].Text? then
      Some((Equals(ts[0].word, ts[2].text), ts[3..]))
    else if |ts| > 0 && ts[0] == Symbol('(') then
      match ParseOr(ts[1..])
      case Some((e, rest)) => if rest != [] && rest[0] == Symbol(')') then Some((e, rest[1..])) else None
      case None => None
    else None
  }

  function ParseAnd(ts: seq<Token>): (r: Parsed)
    ensures r.Some? ==> |r.value.1| < |ts|
    decreases |ts|, 1
  {
    match ParsePrimary(ts)
    case Some((e, rest)) =>
      if rest != [] && rest[0] == Word("and") then
        match ParseAnd(rest[1..])
        case Some((f, rest')) => Some((Both(e, f), rest'))
        case None => None
      else Some((e, rest))
    case None => None
  }

  function ParseOr(ts: seq<Token>): (r: Parsed)
    ensures r.Some? ==> |r.value.1| < |ts|
    decreases |ts|, 2
  {
    match ParseAnd(ts)
    case Some((e, rest)) =>
      if rest != [] && rest[0] == Word("or") then
        match ParseOr(rest[1..])
        case Some((f, rest')) => Some((Either(e, f), rest'))
        case None => None
      else Some((e, rest))
    case None => None
  }

  /** AND binds tighter than OR, on either side of it. */
  lemma Precedence(a: string, b: string, c: string)
    ensures var x, y, z := [Word("x"), Symbol('='), Text(a)], [Word("y"), Symbol('='), Text(b)], [Word("z"), Symbol('='), Text(c)];
            && ParseOr(x + [Word("and")] + y + [Word("or")] + z)
               == Some((Either(Both(Equals("x", a), Equals("y", b)), Equals("z", c)), []))
            && ParseOr(x + [Word("or")] + y + [Word("and")] + z)
               == Some((Either(Equals("x", a), Both(Equals("y", b), Equals("z", c))), []))
  {
    var x, y, z := [Word("x"), Symbol('='), Text(a)], [Word("y"), Symbol('='), Text(b)], [Word("z"), Symbol('='), Text(c)];
    ParseComparison("z", c, []);
    assert z + [] == z;
    ParseLast(z, Equals("z", c), []);
    var orZ := [Word("or")] + z;
    ParseComparison("y", b, orZ);
    ParseLast(y + orZ, Equals("y", b), orZ);
    ParseComparison("x", a, [Word("and")] + (y + orZ));
    ParseConjunction(x + ([Word("and")] + (y + orZ)), Equals("x", a), y + orZ, Equals("y", b), orZ);
    assert orZ[1..] == z;
    assert x + ([Word("and")] + (y + orZ)) == x + [Word("and")] + y + [Word("or")] + z;
    var andZ := [Word("and")] + z;
    ParseComparison("y", b, andZ);
    ParseConjunction(y + andZ, Equals("y", b), z, Equals("z", c), []);
    ParseComparison("x", a, [Word("or")] + (y + andZ));
    ParseDisjunction(x + ([Word("or")] + (y + andZ)), Equals("x", a), y + andZ, Both(Equals("y", b), Equals("z", c)), []);
    assert x + ([Word("or")] + (y + andZ)) == x + [Word("or")] + y + [Word("and")] + z;
  }

  lemma ParseParens(inner: seq<Token>, e: Expr, rest: seq<Token>)
    requires ParseOr(inner) == Some((e, [Symbol(')')] + rest))
    ensures ParsePrimary([Symbol('(')] + inner) == Some((e, rest))
  {
    var ts := [Symbol('(')] + inner;
    assert ts[0] != FRESH[0] && ts[0] != MODE[0] && ts[1..] == inner;
    assert ([Symbol(')')] + rest)[1..] == rest;
  }

  lemma ParseComparison(column: string, literal: string, rest: seq<Token>)
    requires column != "last_seen_active"
    ensures ParsePrimary([Word(column), Symbol('='), Text(literal)] + rest) == Some((Equals(column, literal), rest))
  {
    var ts := [Word(column), Symbol('='), Text(literal)] + rest;
    assert ts[3..] == rest;
    assert ts[0] != FRESH[0] && ts[0] != MODE[0];
  }

  /** The last conjunct, and the last disjunct. */
  lemma ParseLast(ts: seq<Token>, e: Expr, rest: seq<Token>)
    requires ParsePrimary(ts) == Some((e, rest)) && (rest != [] ==> rest[0] != Word("and"))
    ensures ParseAnd(ts) == Some((e, rest))
    ensures (rest != [] ==> rest[0] != Word("or")) ==> ParseOr(ts) == Some((e, rest))
  {
  }

  lemma ParseConjunction(ts: seq<Token>, e: Expr, more: seq<Token>, f: Expr, rest: seq<Token>)
    requires ParsePrimary(ts) == Some((e, [Word("and")] + more)) && ParseAnd(more) == Some((f, rest))
    ensures ParseAnd(ts) == Some((Both(e, f), rest))
    ensures (rest != [] ==> rest[0] != Word("or")) ==> ParseOr(ts) == Some((Both(e, f), rest))
  {
    assert ([Word("and")] + more)[1..] == more;
  }

  lemma ParseDisjunction(ts: seq<Token>, e: Expr, more: seq<Token>, f: Expr, rest: seq<Token>)
    requires ParsePrimary(ts) == Some((e, [Word("or")] + more)) && ParseOr(more) == Some((f, rest))
    ensures ParseOr(ts) == Some((Either(e, f), rest))
  {
    assert ([Word("or")] + more)[1..] == more;
    assert ParseAnd(ts) == Some((e, [Word("or")] + more));
  }

  /** A table row, as far as the query can tell: whether it is fresh, whether its mode fits, and which
      literals its columns equal under the database's own comparison rules. */
  datatype Row = Row(recent: bool, mode: bool, equal: (string, string) -> bool)

  predicate Holds(e: Expr, row: Row) {
    match e
    case Fresh => row.recent
    case Mode => row.mode
    case Equals(column, literal) => row.equal(column, literal)
    case Both(l, r) => Holds(l, row) && Holds(r, row)
    case Either(l, r) => Holds(l, row) || Holds(r, row)
  }
}
