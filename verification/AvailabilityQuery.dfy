/** The query for available nodes: a condition over all raft peers is put together as text, and its meaning
    is recovered by lexing and parsing the whole WHERE clause. */
module AvailabilityQuery {
  import opened Wrappers
  import opened Strings
  import opened Sql
  import opened Peers

  // ---------------------------------------------------------------------------------------------
  // Building the condition

  function HostOf(peer: string, localIp: string): string {
    var host := Split(peer, ':')[0];
    if host == "127.0.0.1" && localIp != "" then localIp else host
  }

  function PortOf(peer: string): string
    requires HasPort(peer)
  {
    Split(peer, ':')[1]
  }

  function Clause(host: string, port: string): string {
    "(ip='" + host + "' and raft_port='" + port + "')"
  }

  function ClausePieces(host: string, port: string): seq<Piece> {
    [Tok(Symbol('(')), Tok(Word("ip")), Tok(Symbol('=')), Tok(Text(host)), Space, Tok(Word("and")), Space,
     Tok(Word("raft_port")), Tok(Symbol('=')), Tok(Text(port)), Tok(Symbol(')'))]
  }

  const OR_PIECES := [Space, Tok(Word("or")), Space]

  /** What peer `i` contributes to the condition: nothing if it has no port. */
  function Contribution(peers: seq<string>, localIp: string, i: nat): seq<Piece>
    requires i < |peers|
  {
    if !HasPort(peers[i]) then []
    else (if i == 0 then [] else OR_PIECES) + ClausePieces(HostOf(peers[i], localIp), PortOf(peers[i]))
         + (if 0 < i == |peers| - 1 then [Tok(Symbol(')'))] else [])
  }

  function ConditionPieces(peers: seq<string>, localIp: string, n: nat): seq<Piece>
    requires n <= |peers|
  {
    if n == 0 then (if |peers| > 1 then [Tok(Symbol('('))] else [])
    else ConditionPieces(peers, localIp, n - 1) + Contribution(peers, localIp, n - 1)
  }

  lemma ClauseText(host: string, port: string)
    ensures "(" + ("ip" + ("=" + (("'" + host + "'") + (" and raft_port=" + (("'" + port + "'") + ")")))))
            == Clause(host, port)
  {
    var p := ("'" + port + "'") + ")";
    assert p == "'" + port + "')";
    var h := ("'" + host + "'") + (" and raft_port=" + p);
    assert h == "'" + host + ("' and raft_port=" + p);
    assert "' and raft_port=" + p == "' and raft_port='" + port + "')";
    assert "(" + ("ip" + ("=" + h)) == "(ip=" + h;
  }

  lemma SpellTail(port: string)
    ensures Spell([Tok(Text(port)), Tok(Symbol(')'))]) == ("'" + port + "'") + ")"
  {
    var tail := [Tok(Text(port)), Tok(Symbol(')'))];
    SpellAt(tail, 1);
    assert tail[1..][1..] == [] && tail[2..] == [];
  }

  lemma SpellHead(host: string, rest: seq<Piece>)
    ensures Spell([Tok(Symbol('(')), Tok(Word("ip")), Tok(Symbol('=')), Tok(Text(host))] + rest)
            == "(" + ("ip" + ("=" + (("'" + host + "'") + Spell(rest))))
  {
    var ps := [Tok(Symbol('(')), Tok(Word("ip")), Tok(Symbol('=')), Tok(Text(host))] + rest;
    SpellAt(ps, 0);
    SpellAt(ps, 1);
    SpellAt(ps, 2);
    SpellAt(ps, 3);
    assert ps[0..] == ps && ps[4..] == rest;
  }

  lemma SpellClause(host: string, port: string)
    ensures Spell(ClausePieces(host, port)) == Clause(host, port)
  {
    var head := [Tok(Symbol('(')), Tok(Word("ip")), Tok(Symbol('=')), Tok(Text(host))];
    var middle := [Space, Tok(Word("and")), Space, Tok(Word("raft_port")), Tok(Symbol('='))];
    var tail := [Tok(Text(port)), Tok(Symbol(')'))];
    assert ClausePieces(host, port) == head + (middle + tail);
    SpellHead(host, middle + tail);
    SpellConcat(middle, tail);
    SpellMiddle();
    SpellTail(port);
    ClauseText(host, port);
  }

  lemma SpellMiddle()
    ensures Spell([Space, Tok(Word("and")), Space, Tok(Word("raft_port")), Tok(Symbol('='))]) == " and raft_port="
  {
    var ps := [Space, Tok(Word("and")), Space, Tok(Word("raft_port")), Tok(Symbol('='))];
    SpellAt(ps, 0);
    SpellAt(ps, 1);
    SpellAt(ps, 2);
    SpellAt(ps, 3);
    SpellAt(ps, 4);
    assert ps[0..] == ps && ps[5..] == [];
  }

  lemma SpellContribution(peers: seq<string>, localIp: string, i: nat)
    requires i < |peers|
    ensures Spell(Contribution(peers, localIp, i)) == ContributionText(peers, localIp, i)
  {
    if !HasPort(peers[i]) {
      return;
    }
    var head := if i == 0 then [] else OR_PIECES;
    var clause := ClausePieces(HostOf(peers[i], localIp), PortOf(peers[i]));
    var tail := if 0 < i == |peers| - 1 then [Tok(Symbol(')'))] else [];
    SpellConcat(head + clause, tail);
    SpellConcat(head, clause);
    SpellClause(HostOf(peers[i], localIp), PortOf(peers[i]));
    assert Spell(OR_PIECES) == " or " by {
      SpellAt(OR_PIECES, 0);
      SpellAt(OR_PIECES, 1);
      SpellAt(OR_PIECES, 2);
      assert OR_PIECES[0..] == OR_PIECES && OR_PIECES[3..] == [];
    }
    assert Spell(tail) == if 0 < i == |peers| - 1 then ")" else "";
  }

  /** The condition text after the first `n` peers. */
  function ConditionText(peers: seq<string>, localIp: string, n: nat): string
    requires n <= |peers|
  {
    if n == 0 then (if |peers| > 1 then "(" else "")
    else
      var text := ConditionText(peers, localIp, n - 1);
      if !HasPort(peers[n - 1]) then text
      else
        var clause := Clause(HostOf(peers[n - 1], localIp), PortOf(peers[n - 1]));
        if n == 1 then text + clause
        else if n == |peers| then text + " or " + clause + ")"
        else text + " or " + clause
  }

  /** The loop of ReadAvailableNodes that grows the condition. */
  method BuildCondition(peers: seq<string>, localIp: string) returns (whereCondition: string)
    requires peers != []
    ensures whereCondition == ConditionText(peers, localIp, |peers|)
  {
    whereCondition := "";
    if |peers| > 1 {
      whereCondition := "(";
    }
    for i := 0 to |peers|
      invariant whereCondition == ConditionText(peers, localIp, i)
    {
      var hostPort := Split(peers[i], ':');
      if |hostPort| < 2 {
        continue;
      }
      var host := hostPort[0];
      if host == "127.0.0.1" {
        if localIp != "" {
          host := localIp;
        }
      }
      if i == 0 {
        whereCondition := whereCondition + Clause(host, hostPort[1]);
      } else if i == |peers| - 1 {
        whereCondition := whereCondition + " or " + Clause(host, hostPort[1]) + ")";
      } else {
        whereCondition := whereCondition + " or " + Clause(host, hostPort[1]);
      }
    }
  }

  lemma Concats(text: string, clause: string)
    ensures text + ("" + clause + "") == text + clause
    ensures text + (" or " + clause + "") == text + " or " + clause
    ensures text + (" or " + clause + ")") == text + " or " + clause + ")"
  {
  }

  /** What peer `i` contributes to the text. */
  function ContributionText(peers: seq<string>, localIp: string, i: nat): string
    requires i < |peers|
  {
    if !HasPort(peers[i]) then ""
    else
      (if i == 0 then "" else " or ") + Clause(HostOf(peers[i], localIp), PortOf(peers[i]))
      + (if 0 < i == |peers| - 1 then ")" else "")
  }

  lemma ConditionTextStep(peers: seq<string>, localIp: string, i: nat)
    requires i < |peers|
    ensures ConditionText(peers, localIp, i + 1) == ConditionText(peers, localIp, i) + ContributionText(peers, localIp, i)
  {
    if HasPort(peers[i]) {
      Concats(ConditionText(peers, localIp, i), Clause(HostOf(peers[i], localIp), PortOf(peers[i])));
    }
  }

  lemma OpeningSpelled(peers: seq<string>, localIp: string)
    ensures ConditionText(peers, localIp, 0) == Spell(ConditionPieces(peers, localIp, 0))
  {
    var open := [Tok(Symbol('('))];
    SpellAt(open, 0);
    assert open[0..] == open && open[1..] == [];
  }

  lemma ConditionSpelledStep(peers: seq<string>, localIp: string, i: nat)
    requires i < |peers| && ConditionText(peers, localIp, i) == Spell(ConditionPieces(peers, localIp, i))
    ensures ConditionText(peers, localIp, i + 1) == Spell(ConditionPieces(peers, localIp, i + 1))
  {
    ConditionTextStep(peers, localIp, i);
    SpellContribution(peers, localIp, i);
    SpellConcat(ConditionPieces(peers, localIp, i), Contribution(peers, localIp, i));
    assert ConditionPieces(peers, localIp, i + 1) == ConditionPieces(peers, localIp, i) + Contribution(peers, localIp, i);
  }

  /** The text spells the pieces. */
  lemma {:induction false} ConditionSpelled(peers: seq<string>, localIp: string, n: nat)
    requires n <= |peers|
    ensures ConditionText(peers, localIp, n) == Spell(ConditionPieces(peers, localIp, n))
  {
    if n == 0 {
      OpeningSpelled(peers, localIp);
    } else {
      ConditionSpelled(peers, localIp, n - 1);
      ConditionSpelledStep(peers, localIp, n - 1);
    }
  }

  // ---------------------------------------------------------------------------------------------
  // Its tokens

  type HostPort = (string, string)

  function ClauseTokens(hp: HostPort): seq<Token> {
    [Symbol('('), Word("ip"), Symbol('='), Text(hp.0), Word("and"), Word("raft_port"), Symbol('='), Text(hp.1), Symbol(')')]
  }

  /** Clauses joined by OR. */
  function OrTokens(hps: seq<HostPort>): seq<Token> {
    if hps == [] then []
    else if |hps| == 1 then ClauseTokens(hps[0])
    else ClauseTokens(hps[0]) + [Word("or")] + OrTokens(hps[1..])
  }

  /** The addresses of the first `n` peers that have a port. */
  function Addresses(peers: seq<string>, localIp: string, n: nat): seq<HostPort>
    requires n <= |peers|
  {
    if n == 0 then []
    else Addresses(peers, localIp, n - 1)
         + if HasPort(peers[n - 1]) then [(HostOf(peers[n - 1], localIp), PortOf(peers[n - 1]))] else []
  }

  lemma ClausePiecesTokens(host: string, port: string)
    ensures Tokens(ClausePieces(host, port)) == ClauseTokens((host, port))
  {
    var ps := ClausePieces(host, port);
    assert ps == ps[..4] + (ps[4..8] + ps[8..]);
    TokensConcat(ps[..4], ps[4..8] + ps[8..]);
    TokensConcat(ps[4..8], ps[8..]);
    assert Tokens(ps[..4]) == ClauseTokens((host, port))[..4] by {
      FourTokens(ps[..4]);
    }
    assert Tokens(ps[4..8]) == [Word("and"), Word("raft_port")] by {
      FourTokens(ps[4..8]);
    }
    assert Tokens(ps[8..]) == ClauseTokens((host, port))[6..] by {
      TokensAt(ps[8..], 0);
      TokensAt(ps[8..], 1);
      TokensAt(ps[8..], 2);
      assert ps[8..][3..] == [] && ps[8..][0..] == ps[8..];
    }
  }

  lemma FourTokens(ps: seq<Piece>)
    requires |ps| == 4
    ensures Tokens(ps) == (if ps[0].Tok? then [ps[0].token] else []) + (if ps[1].Tok? then [ps[1].token] else [])
                          + (if ps[2].Tok? then [ps[2].token] else []) + (if ps[3].Tok? then [ps[3].token] else [])
  {
    TokensAt(ps, 0);
    TokensAt(ps, 1);
    TokensAt(ps, 2);
    TokensAt(ps, 3);
    assert ps[4..] == [] && ps[0..] == ps;
  }

  /** The tokens peer `i` contributes. */
  function ContributedTokens(peers: seq<string>, localIp: string, i: nat): seq<Token>
    requires i < |peers|
  {
    if !HasPort(peers[i]) then []
    else
      (if i == 0 then [] else [Word("or")]) + ClauseTokens((HostOf(peers[i], localIp), PortOf(peers[i])))
      + (if 0 < i == |peers| - 1 then [Symbol(')')] else [])
  }

  lemma ContributionTokens(peers: seq<string>, localIp: string, i: nat)
    requires i < |peers|
    ensures Tokens(Contribution(peers, localIp, i)) == ContributedTokens(peers, localIp, i)
  {
    if !HasPort(peers[i]) {
      return;
    }
    var head := if i == 0 then [] else OR_PIECES;
    var clause := ClausePieces(HostOf(peers[i], localIp), PortOf(peers[i]));
    var tail := if 0 < i == |peers| - 1 then [Tok(Symbol(')'))] else [];
    TokensConcat(head + clause, tail);
    TokensConcat(head, clause);
    ClausePiecesTokens(HostOf(peers[i], localIp), PortOf(peers[i]));
    assert Tokens(OR_PIECES) == [Word("or")] by {
      TokensAt(OR_PIECES, 0);
      TokensAt(OR_PIECES, 1);
      TokensAt(OR_PIECES, 2);
      assert OR_PIECES[0..] == OR_PIECES && OR_PIECES[3..] == [];
    }
  }

  lemma ConditionTokensStep(peers: seq<string>, localIp: string, i: nat)
    requires i < |peers|
    ensures Tokens(ConditionPieces(peers, localIp, i + 1))
            == Tokens(ConditionPieces(peers, localIp, i)) + ContributedTokens(peers, localIp, i)
  {
    TokensConcat(ConditionPieces(peers, localIp, i), Contribution(peers, localIp, i));
    ContributionTokens(peers, localIp, i);
    assert ConditionPieces(peers, localIp, i + 1) == ConditionPieces(peers, localIp, i) + Contribution(peers, localIp, i);
  }

  /** The tokens of the condition after `n` peers. */
  function TokensUpTo(peers: seq<string>, localIp: string, n: nat): seq<Token>
    requires n <= |peers|
  {
    if n == 0 then Opening(peers) else TokensUpTo(peers, localIp, n - 1) + ContributedTokens(peers, localIp, n - 1)
  }

  lemma TokensUpToNext(peers: seq<string>, localIp: string, i: nat)
    requires i < |peers|
    ensures TokensUpTo(peers, localIp, i + 1) == TokensUpTo(peers, localIp, i) + ContributedTokens(peers, localIp, i)
  {
  }

  lemma OpeningLexed(peers: seq<string>, localIp: string)
    ensures Tokens(ConditionPieces(peers, localIp, 0)) == TokensUpTo(peers, localIp, 0)
  {
    var open := [Tok(Symbol('('))];
    TokensAt(open, 0);
    assert open[0..] == open && open[1..] == [];
  }

  lemma ConditionLexed(peers: seq<string>, localIp: string, n: nat)
    requires n <= |peers|
    ensures Tokens(ConditionPieces(peers, localIp, n)) == TokensUpTo(peers, localIp, n)
  {
    OpeningLexed(peers, localIp);
    for i := 0 to n
      invariant Tokens(ConditionPieces(peers, localIp, i)) == TokensUpTo(peers, localIp, i)
    {
      ConditionTokensStep(peers, localIp, i);
      TokensUpToNext(peers, localIp, i);
    }
  }

  lemma {:induction false} OrTokensAppend(hps: seq<HostPort>, hp: HostPort)
    requires hps != []
    ensures OrTokens(hps + [hp]) == OrTokens(hps) + [Word("or")] + ClauseTokens(hp)
  {
    assert (hps + [hp])[1..] == hps[1..] + [hp];
    if |hps| > 1 {
      OrTokensAppend(hps[1..], hp);
    }
  }

  function Opening(peers: seq<string>): seq<Token> {
    if |peers| > 1 then [Symbol('(')] else []
  }

  function Closing(peers: seq<string>, n: nat): seq<Token>
    requires n <= |peers|
  {
    if 1 < n == |peers| && HasPort(peers[n - 1]) then [Symbol(')')] else []
  }

  lemma Regroup(a: seq<Token>, b: seq<Token>, c: seq<Token>, d: seq<Token>, e: seq<Token>)
    ensures (a + b + []) + (c + d + e) == a + (b + c + d) + e
  {
  }

  /** When the first peer has a port, the condition lists the addresses joined by OR; the closing
      parenthesis appears only if the last peer has a port. */
  lemma {:induction false} ConditionTokens(peers: seq<string>, localIp: string, n: nat)
    requires 0 < n <= |peers| && HasPort(peers[0])
    ensures Addresses(peers, localIp, n) != []
    ensures TokensUpTo(peers, localIp, n)
            == Opening(peers) + OrTokens(Addresses(peers, localIp, n)) + Closing(peers, n)
  {
    if n == 1 {
      assert TokensUpTo(peers, localIp, 0) == Opening(peers);
      assert Addresses(peers, localIp, 1) == [(HostOf(peers[0], localIp), PortOf(peers[0]))];
    } else {
      ConditionTokens(peers, localIp, n - 1);
      if HasPort(peers[n - 1]) {
        var before, hp := Addresses(peers, localIp, n - 1), (HostOf(peers[n - 1], localIp), PortOf(peers[n - 1]));
        OrTokensAppend(before, hp);
        assert ContributedTokens(peers, localIp, n - 1) == [Word("or")] + ClauseTokens(hp) + Closing(peers, n);
        Regroup(Opening(peers), OrTokens(before), [Word("or")], ClauseTokens(hp), Closing(peers, n));
      } else {
        assert Addresses(peers, localIp, n) == Addresses(peers, localIp, n - 1);
        assert TokensUpTo(peers, localIp, n) == TokensUpTo(peers, localIp, n - 1);
      }
    }
  }

  /** When the first of several peers has no port, what follows the opening parenthesis is either nothing
      or a dangling OR. */
  lemma {:induction false} DanglingTokens(peers: seq<string>, localIp: string, n: nat)
    requires 0 < n <= |peers| && |peers| > 1 && !HasPort(peers[0])
    ensures var ts := TokensUpTo(peers, localIp, n);
            ts != [] && ts[0] == Symbol('(') && (ts == [Symbol('(')] || (|ts| >= 3 && ts[1] == Word("or") && ts[2] == Symbol('(')))
  {
    if n == 1 {
      assert TokensUpTo(peers, localIp, 0) == [Symbol('(')];
    } else {
      DanglingTokens(peers, localIp, n - 1);
    }
  }

  // ---------------------------------------------------------------------------------------------
  // Parsing it back

  const ORDER_BY := [Word("order"), Word("by"), Word("hostname")]

  function ClauseExpr(hp: HostPort): Expr {
    Both(Equals("ip", hp.0), Equals("raft_port", hp.1))
  }

  function OrExpr(hps: seq<HostPort>): Expr
    requires hps != []
  {
    if |hps| == 1 then ClauseExpr(hps[0]) else Either(ClauseExpr(hps[0]), OrExpr(hps[1..]))
  }

  /** No token that could continue a boolean expression. */
  predicate Stops(rest: seq<Token>) {
    rest == [] || (rest[0] != Word("and") && rest[0] != Word("or"))
  }

  lemma ParseClause(hp: HostPort, rest: seq<Token>)
    ensures ParsePrimary(ClauseTokens(hp) + rest) == Some((ClauseExpr(hp), rest))
  {
    var close := [Symbol(')')] + rest;
    var second := [Word("raft_port"), Symbol('='), Text(hp.1)] + close;
    ParseComparison("raft_port", hp.1, close);
    ParseLast(second, Equals("raft_port", hp.1), close);
    var first := [Word("ip"), Symbol('='), Text(hp.0)] + ([Word("and")] + second);
    ParseComparison("ip", hp.0, [Word("and")] + second);
    ParseConjunction(first, Equals("ip", hp.0), second, Equals("raft_port", hp.1), close);
    ParseParens(first, ClauseExpr(hp), rest);
    ClauseLayout(hp, rest);
  }

  lemma ClauseLayout(hp: HostPort, rest: seq<Token>)
    ensures [Symbol('(')] + ([Word("ip"), Symbol('='), Text(hp.0)]
              + ([Word("and")] + ([Word("raft_port"), Symbol('='), Text(hp.1)] + ([Symbol(')')] + rest))))
            == ClauseTokens(hp) + rest
  {
  }

  lemma {:induction false} ParseOrList(hps: seq<HostPort>, rest: seq<Token>)
    requires hps != [] && Stops(rest)
    ensures ParseOr(OrTokens(hps) + rest) == Some((OrExpr(hps), rest))
  {
    if |hps| == 1 {
      ParseClause(hps[0], rest);
      ParseLast(ClauseTokens(hps[0]) + rest, ClauseExpr(hps[0]), rest);
    } else {
      ParseOrList(hps[1..], rest);
      ParseOrStep(hps, rest);
    }
  }

  lemma ParseOrStep(hps: seq<HostPort>, rest: seq<Token>)
    requires |hps| > 1 && ParseOr(OrTokens(hps[1..]) + rest) == Some((OrExpr(hps[1..]), rest))
    ensures ParseOr(OrTokens(hps) + rest) == Some((OrExpr(hps), rest))
  {
    var more := OrTokens(hps[1..]) + rest;
    assert OrTokens(hps) + rest == ClauseTokens(hps[0]) + ([Word("or")] + more);
    ParseClause(hps[0], [Word("or")] + more);
    ParseDisjunction(OrTokens(hps) + rest, ClauseExpr(hps[0]), more, OrExpr(hps[1..]), rest);
  }

  /** The row carries this address. */
  predicate Carries(row: Row, hp: HostPort) {
    row.equal("ip", hp.0) && row.equal("raft_port", hp.1)
  }

  lemma {:induction false} OrExprHolds(hps: seq<HostPort>, row: Row)
    requires hps != []
    ensures Holds(OrExpr(hps), row) <==> exists hp :: hp in hps && Carries(row, hp)
  {
    assert hps[0] in hps;
    if |hps| > 1 {
      OrExprHolds(hps[1..], row);
      assert Holds(ClauseExpr(hps[0]), row) <==> Carries(row, hps[0]);
      assert forall hp :: hp in hps <==> hp == hps[0] || hp in hps[1..];
      assert OrExpr(hps) == Either(ClauseExpr(hps[0]), OrExpr(hps[1..]));
    }
  }

  /** The WHERE clause in front of the condition. */
  function Prefixed(ts: seq<Token>): seq<Token> {
    FRESH + ([Word("and")] + (MODE + ([Word("and")] + ts)))
  }

  lemma ParsePrefix(ts: seq<Token>)
    ensures ParseAnd(Prefixed(ts))
            == match ParseAnd(ts)
               case None => None
               case Some((e, rest)) => Some((Both(Fresh, Both(Mode, e)), rest))
  {
    var afterMode := [Word("and")] + ts;
    var mode := MODE + afterMode;
    var afterFresh := [Word("and")] + mode;
    var all := FRESH + afterFresh;
    assert all[|FRESH|..] == afterFresh && afterFresh[1..] == mode;
    assert mode[|MODE|..] == afterMode && afterMode[1..] == ts;
    assert FRESH <= all && MODE <= mode;
    assert mode[0] != FRESH[0];
    assert ParsePrimary(all) == Some((Fresh, afterFresh));
    assert ParsePrimary(mode) == Some((Mode, afterMode));
    assert ParseAnd(mode) == match ParseAnd(ts)
                             case None => None
                             case Some((e, rest)) => Some((Both(Mode, e), rest));
  }

  /** The expression a token list denotes as a WHERE clause followed by the ordering, if any. */
  function Meaning(ts: seq<Token>): Option<Expr> {
    match ParseOr(ts)
    case Some((e, rest)) => if rest == ORDER_BY then Some(e) else None
    case None => None
  }

  function FullTokens(peers: seq<string>, localIp: string): seq<Token> {
    Prefixed(TokensUpTo(peers, localIp, |peers|) + ORDER_BY)
  }

  lemma ParenthesizedList(hps: seq<HostPort>, rest: seq<Token>)
    requires hps != []
    ensures ParsePrimary([Symbol('(')] + OrTokens(hps) + [Symbol(')')] + rest) == Some((OrExpr(hps), rest))
  {
    var close := [Symbol(')')] + rest;
    ParseOrList(hps, close);
    ParseParens(OrTokens(hps) + close, OrExpr(hps), rest);
    Parenthesize([Symbol('(')], OrTokens(hps), [Symbol(')')], rest);
  }

  lemma Parenthesize(a: seq<Token>, b: seq<Token>, c: seq<Token>, d: seq<Token>)
    ensures a + (b + (c + d)) == a + b + c + d
  {
  }

  lemma ConditionDecides(ts: seq<Token>, e: Expr)
    ensures ParseAnd(ts) == Some((e, ORDER_BY)) ==> Meaning(Prefixed(ts)) == Some(Both(Fresh, Both(Mode, e)))
    ensures ParsePrimary(ts) == None ==> Meaning(Prefixed(ts)) == None
  {
    ParsePrefix(ts);
  }

  lemma SinglePeerParses(peers: seq<string>, localIp: string)
    requires |peers| == 1 && HasPort(peers[0])
    ensures var hps := Addresses(peers, localIp, |peers|);
            hps != [] && ParseAnd(TokensUpTo(peers, localIp, |peers|) + ORDER_BY) == Some((OrExpr(hps), ORDER_BY))
  {
    ConditionTokens(peers, localIp, 1);
    var hp := (HostOf(peers[0], localIp), PortOf(peers[0]));
    assert Addresses(peers, localIp, 0) == [];
    assert Addresses(peers, localIp, 1) == [hp];
    assert TokensUpTo(peers, localIp, 1) == ClauseTokens(hp);
    ParseClause(hp, ORDER_BY);
    ParseLast(ClauseTokens(hp) + ORDER_BY, ClauseExpr(hp), ORDER_BY);
  }

  lemma PeerListParses(peers: seq<string>, localIp: string)
    requires |peers| > 1 && HasPort(peers[0]) && HasPort(peers[|peers| - 1])
    ensures var hps := Addresses(peers, localIp, |peers|);
            hps != [] && ParseAnd(TokensUpTo(peers, localIp, |peers|) + ORDER_BY) == Some((OrExpr(hps), ORDER_BY))
  {
    ConditionTokens(peers, localIp, |peers|);
    var hps := Addresses(peers, localIp, |peers|);
    ParenthesizedList(hps, ORDER_BY);
    ParseLast([Symbol('(')] + OrTokens(hps) + [Symbol(')')] + ORDER_BY, OrExpr(hps), ORDER_BY);
  }

  /** First and last peer with a port: the query parses, and this is what it says. */
  lemma CompleteListParses(peers: seq<string>, localIp: string)
    requires peers != [] && HasPort(peers[0]) && HasPort(peers[|peers| - 1])
    ensures var hps := Addresses(peers, localIp, |peers|);
            hps != [] && Meaning(FullTokens(peers, localIp)) == Some(Both(Fresh, Both(Mode, OrExpr(hps))))
  {
    if |peers| == 1 {
      SinglePeerParses(peers, localIp);
    } else {
      PeerListParses(peers, localIp);
    }
    ConditionDecides(TokensUpTo(peers, localIp, |peers|) + ORDER_BY, OrExpr(Addresses(peers, localIp, |peers|)));
  }

  lemma SinglePeerFails(peers: seq<string>, localIp: string)
    requires |peers| == 1 && !HasPort(peers[0])
    ensures ParsePrimary(TokensUpTo(peers, localIp, |peers|) + ORDER_BY) == None
  {
    assert TokensUpTo(peers, localIp, 0) == [];
    assert TokensUpTo(peers, localIp, |peers|) + ORDER_BY == ORDER_BY;
  }

  lemma UnclosedListFails(peers: seq<string>, localIp: string)
    requires |peers| > 1 && HasPort(peers[0]) && !HasPort(peers[|peers| - 1])
    ensures ParsePrimary(TokensUpTo(peers, localIp, |peers|) + ORDER_BY) == None
  {
    var ts := TokensUpTo(peers, localIp, |peers|) + ORDER_BY;
    ConditionTokens(peers, localIp, |peers|);
    var hps := Addresses(peers, localIp, |peers|);
    assert ts[1..] == OrTokens(hps) + ORDER_BY;
    ParseOrList(hps, ORDER_BY);
    assert ts[0] != FRESH[0] && ts[0] != MODE[0] && ts[0] == Symbol('(');
  }

  lemma DanglingOrFails(peers: seq<string>, localIp: string)
    requires |peers| > 1 && !HasPort(peers[0])
    ensures ParsePrimary(TokensUpTo(peers, localIp, |peers|) + ORDER_BY) == None
  {
    DanglingTokens(peers, localIp, |peers|);
    var ts := TokensUpTo(peers, localIp, |peers|) + ORDER_BY;
    var inner := ts[1..];
    assert inner[0].Word? && inner[1] != Symbol('=') && inner[0] != FRESH[0] && inner[0] != MODE[0];
    assert ParsePrimary(inner) == None && ParseAnd(inner) == None && ParseOr(inner) == None;
    assert ts[0] != FRESH[0] && ts[0] != MODE[0] && ts[0] == Symbol('(');
  }

  /** First or last peer without a port: the query is not well formed. */
  lemma IncompleteListFails(peers: seq<string>, localIp: string)
    requires peers != [] && !(HasPort(peers[0]) && HasPort(peers[|peers| - 1]))
    ensures Meaning(FullTokens(peers, localIp)) == None
  {
    if |peers| == 1 {
      SinglePeerFails(peers, localIp);
    } else if HasPort(peers[0]) {
      UnclosedListFails(peers, localIp);
    } else {
      DanglingOrFails(peers, localIp);
    }
    ConditionDecides(TokensUpTo(peers, localIp, |peers|) + ORDER_BY, Fresh);
  }

  // ---------------------------------------------------------------------------------------------
  // The whole query

  const FRESH_PIECES := [Tok(Word("last_seen_active")), Space, Tok(Symbol('>')), Space, Tok(Word("now")),
                         Tok(Symbol('(')), Tok(Symbol(')'))]
  const INTERVAL_PIECES := [Space, Tok(Symbol('-')), Space, Tok(Word("interval")), Space, Tok(Symbol('?')), Space,
                            Tok(Word("second"))]
  const AND_PIECES := [Space, Tok(Word("and")), Space]
  const MODE_PIECES := [Tok(Symbol('?')), Space, Tok(Word("in")), Space, Tok(Symbol('('))]
  const MODES_PIECES := [Tok(Word("extra_info")), Tok(Symbol(',')), Space, Tok(Text("")), Tok(Symbol(')'))]
  const ORDER_PIECES := [Space, Tok(Word("order")), Space, Tok(Word("by")), Space, Tok(Word("hostname"))]

  /** last_seen_active > now() - interval ? second and ? in (extra_info, '') and */
  function WherePieces(): seq<Piece> {
    FRESH_PIECES + (INTERVAL_PIECES + (AND_PIECES + (MODE_PIECES + (MODES_PIECES + AND_PIECES))))
  }

  /** The query from its WHERE clause on, with white space collapsed. */
  function QueryText(whereCondition: string): string {
    Spell(WherePieces()) + whereCondition + Spell(ORDER_PIECES)
  }

  lemma FreshPieces()
    ensures Tokens(FRESH_PIECES) == FRESH[..5]
  {
    var ps := FRESH_PIECES;
    TokensAt(ps, 0); TokensAt(ps, 1); TokensAt(ps, 2); TokensAt(ps, 3); TokensAt(ps, 4); TokensAt(ps, 5); TokensAt(ps, 6);
    assert ps[0..] == ps && ps[7..] == [];
  }

  lemma IntervalPieces()
    ensures Tokens(INTERVAL_PIECES) == FRESH[5..]
  {
    var ps := INTERVAL_PIECES;
    assert ps == ps[..4] + ps[4..];
    TokensConcat(ps[..4], ps[4..]);
    FourTokens(ps[..4]);
    FourTokens(ps[4..]);
  }

  lemma AndPieces()
    ensures Tokens(AND_PIECES) == [Word("and")]
  {
    var ps := AND_PIECES;
    TokensAt(ps, 0); TokensAt(ps, 1); TokensAt(ps, 2);
    assert ps[0..] == ps && ps[3..] == [];
  }

  lemma ModePieces()
    ensures Tokens(MODE_PIECES) == MODE[..3]
  {
    var ps := MODE_PIECES;
    TokensAt(ps, 0); TokensAt(ps, 1); TokensAt(ps, 2); TokensAt(ps, 3); TokensAt(ps, 4);
    assert ps[0..] == ps && ps[5..] == [];
  }

  lemma ModesPieces()
    ensures Tokens(MODES_PIECES) == MODE[3..]
  {
    var ps := MODES_PIECES;
    TokensAt(ps, 0); TokensAt(ps, 1); TokensAt(ps, 2); TokensAt(ps, 3); TokensAt(ps, 4);
    assert ps[0..] == ps && ps[5..] == [];
  }

  lemma OrderPieces()
    ensures Tokens(ORDER_PIECES) == ORDER_BY
  {
    var ps := ORDER_PIECES;
    TokensAt(ps, 0); TokensAt(ps, 1); TokensAt(ps, 2); TokensAt(ps, 3); TokensAt(ps, 4); TokensAt(ps, 5);
    assert ps[0..] == ps && ps[6..] == [];
  }

  /** No quote and no escape character anywhere in the inserted text. */
  predicate Unquoted(peers: seq<string>, localIp: string) {
    Quotable(localIp) && forall i :: 0 <= i < |peers| ==> Quotable(peers[i])
  }

  lemma WhereTokens()
    ensures Tokens(WherePieces()) == FRESH + ([Word("and")] + (MODE + [Word("and")]))
  {
    FreshPieces();
    IntervalPieces();
    AndPieces();
    ModePieces();
    ModesPieces();
    TokensOfSix(FRESH_PIECES, INTERVAL_PIECES, AND_PIECES, MODE_PIECES, MODES_PIECES, AND_PIECES);
    Halves(FRESH, 5, MODE, 3, [Word("and")]);
  }

  lemma Halves(f: seq<Token>, i: nat, m: seq<Token>, j: nat, w: seq<Token>)
    requires i <= |f| && j <= |m|
    ensures f[..i] + (f[i..] + (w + (m[..j] + (m[j..] + w)))) == f + (w + (m + w))
  {
  }

  lemma ReadableFresh()
    ensures Readable(FRESH_PIECES)
  {
  }

  lemma ReadableInterval()
    ensures Readable(INTERVAL_PIECES)
  {
  }

  lemma ReadableAnd()
    ensures Readable(AND_PIECES)
  {
  }

  lemma ReadableMode()
    ensures Readable(MODE_PIECES)
  {
  }

  lemma ReadableModes()
    ensures Readable(MODES_PIECES)
  {
  }

  lemma WhereReadable()
    ensures Readable(WherePieces()) && !WordAt(WherePieces(), |WherePieces()| - 1)
  {
    ReadableFresh();
    ReadableInterval();
    ReadableAnd();
    ReadableMode();
    ReadableModes();
    ReadableOfSix(FRESH_PIECES, INTERVAL_PIECES, AND_PIECES, MODE_PIECES, MODES_PIECES, AND_PIECES);
  }

  lemma {:induction false} SplitChars(s: string, sep: char, i: nat)
    requires i < |Split(s, sep)| && Quotable(s)
    ensures Quotable(Split(s, sep)[i])
  {
    if s != "" {
      var rest := Split(s[1..], sep);
      assert s[0] in s;
      if s[0] == sep {
        if i > 0 {
          SplitChars(s[1..], sep, i - 1);
        }
      } else {
        SplitChars(s[1..], sep, i);
      }
    }
  }

  lemma ClauseDetached(host: string, port: string)
    requires Quotable(host) && Quotable(port)
    ensures Detached(ClausePieces(host, port))
  {
  }

  lemma AddressQuotable(peer: string, localIp: string)
    requires HasPort(peer) && Quotable(peer) && Quotable(localIp)
    ensures Quotable(HostOf(peer, localIp)) && Quotable(PortOf(peer))
  {
    SplitChars(peer, ':', 0);
    SplitChars(peer, ':', 1);
  }

  lemma ContributionDetached(peers: seq<string>, localIp: string, i: nat)
    requires i < |peers| && Unquoted(peers, localIp)
    ensures Detached(Contribution(peers, localIp, i))
  {
    if HasPort(peers[i]) {
      AddressQuotable(peers[i], localIp);
      ClauseDetached(HostOf(peers[i], localIp), PortOf(peers[i]));
      var head := if i == 0 then [] else OR_PIECES;
      var clause := ClausePieces(HostOf(peers[i], localIp), PortOf(peers[i]));
      var tail := if 0 < i == |peers| - 1 then [Tok(Symbol(')'))] else [];
      DetachedConcat(head, clause);
      DetachedConcat(head + clause, tail);
    }
  }

  lemma ConditionDetachedStep(peers: seq<string>, localIp: string, i: nat)
    requires i < |peers| && Unquoted(peers, localIp) && Detached(ConditionPieces(peers, localIp, i))
    ensures Detached(ConditionPieces(peers, localIp, i + 1))
  {
    ContributionDetached(peers, localIp, i);
    DetachedConcat(ConditionPieces(peers, localIp, i), Contribution(peers, localIp, i));
  }

  lemma {:induction false} ConditionDetached(peers: seq<string>, localIp: string, n: nat)
    requires n <= |peers| && Unquoted(peers, localIp)
    ensures Detached(ConditionPieces(peers, localIp, n))
  {
    if n > 0 {
      ConditionDetached(peers, localIp, n - 1);
      ConditionDetachedStep(peers, localIp, n - 1);
    }
  }

  /** The built query lexes to the prefix, the condition and the ordering. */
  lemma QueryLexes(peers: seq<string>, localIp: string)
    requires Unquoted(peers, localIp)
    ensures Lex(QueryText(ConditionText(peers, localIp, |peers|))) == FullTokens(peers, localIp)
  {
    ConditionSpelled(peers, localIp, |peers|);
    ConditionDetached(peers, localIp, |peers|);
    ConditionLexed(peers, localIp, |peers|);
    LexAround(ConditionPieces(peers, localIp, |peers|));
    PrefixAssociates(TokensUpTo(peers, localIp, |peers|));
  }

  lemma LexAround(cond: seq<Piece>)
    requires Detached(cond)
    ensures Lex(QueryText(Spell(cond)))
            == (FRESH + ([Word("and")] + (MODE + [Word("and")]))) + Tokens(cond) + ORDER_BY
  {
    WhereReadable();
    OrderReadable();
    LexThree(WherePieces(), cond, ORDER_PIECES);
    WhereTokens();
    OrderPieces();
  }

  lemma OrderReadable()
    ensures Readable(ORDER_PIECES) && !WordAt(ORDER_PIECES, 0)
  {
  }

  lemma PrefixAssociates(ts: seq<Token>)
    ensures (FRESH + ([Word("and")] + (MODE + [Word("and")]))) + ts + ORDER_BY == Prefixed(ts + ORDER_BY)
  {
  }

  /** A row is available when it is recent, of the requested mode, and carries the address of a peer. */
  predicate Available(row: Row, peers: seq<string>, localIp: string) {
    && row.recent && row.mode
    && exists i :: 0 <= i < |peers| && HasPort(peers[i]) && Carries(row, (HostOf(peers[i], localIp), PortOf(peers[i])))
  }

  lemma {:induction false} AddressesOfPeers(peers: seq<string>, localIp: string, n: nat, hp: HostPort)
    requires n <= |peers|
    ensures hp in Addresses(peers, localIp, n)
            <==> exists i :: 0 <= i < n && HasPort(peers[i]) && hp == (HostOf(peers[i], localIp), PortOf(peers[i]))
  {
    if n > 0 {
      AddressesOfPeers(peers, localIp, n - 1, hp);
    }
  }

  /** The built query is well formed exactly when the first and the last peer have a port. */
  lemma QueryWellFormed(peers: seq<string>, localIp: string)
    requires peers != [] && Unquoted(peers, localIp)
    ensures Meaning(Lex(QueryText(ConditionText(peers, localIp, |peers|)))).Some?
            <==> HasPort(peers[0]) && HasPort(peers[|peers| - 1])
  {
    QueryLexes(peers, localIp);
    if HasPort(peers[0]) && HasPort(peers[|peers| - 1]) {
      CompleteListParses(peers, localIp);
    } else {
      IncompleteListFails(peers, localIp);
    }
  }

  lemma AvailableByAddress(peers: seq<string>, localIp: string, row: Row)
    ensures Available(row, peers, localIp)
            <==> row.recent && row.mode && exists hp :: hp in Addresses(peers, localIp, |peers|) && Carries(row, hp)
  {
    if exists hp :: hp in Addresses(peers, localIp, |peers|) && Carries(row, hp) {
      var hp :| hp in Addresses(peers, localIp, |peers|) && Carries(row, hp);
      AddressesOfPeers(peers, localIp, |peers|, hp);
    }
    if Available(row, peers, localIp) {
      var i :| 0 <= i < |peers| && HasPort(peers[i]) && Carries(row, (HostOf(peers[i], localIp), PortOf(peers[i])));
      AddressesOfPeers(peers, localIp, |peers|, (HostOf(peers[i], localIp), PortOf(peers[i])));
    }
  }

  lemma QueryExpression(peers: seq<string>, localIp: string)
    requires peers != [] && Unquoted(peers, localIp)
    requires HasPort(peers[0]) && HasPort(peers[|peers| - 1])
    ensures Addresses(peers, localIp, |peers|) != []
    ensures Meaning(Lex(QueryText(ConditionText(peers, localIp, |peers|))))
            == Some(Both(Fresh, Both(Mode, OrExpr(Addresses(peers, localIp, |peers|)))))
  {
    QueryLexes(peers, localIp);
    CompleteListParses(peers, localIp);
  }

  /** A well-formed query selects exactly the available rows. */
  lemma QuerySelectsAvailable(peers: seq<string>, localIp: string, row: Row)
    requires peers != [] && Unquoted(peers, localIp)
    requires HasPort(peers[0]) && HasPort(peers[|peers| - 1])
    ensures var e := Meaning(Lex(QueryText(ConditionText(peers, localIp, |peers|))));
            e.Some? && (Holds(e.value, row) <==> Available(row, peers, localIp))
  {
    QueryExpression(peers, localIp);
    ListSelects(Addresses(peers, localIp, |peers|), row);
    AvailableByAddress(peers, localIp, row);
  }

  lemma ListSelects(hps: seq<HostPort>, row: Row)
    requires hps != []
    ensures Holds(Both(Fresh, Both(Mode, OrExpr(hps))), row)
            <==> row.recent && row.mode && exists hp :: hp in hps && Carries(row, hp)
  {
    OrExprHolds(hps, row);
    var inner := Both(Mode, OrExpr(hps));
    assert Holds(inner, row) <==> row.mode && Holds(OrExpr(hps), row);
    assert Holds(Both(Fresh, inner), row) <==> row.recent && Holds(inner, row);
  }

  // ---------------------------------------------------------------------------------------------
  // Peers given as hosts and ports

  /** The peers are these hosts and ports, written with a colon in between. */
  predicate SpeltOut(peers: seq<string>, pairs: seq<HostPort>) {
    && |peers| == |pairs|
    && forall i :: 0 <= i < |pairs| ==> ':' !in pairs[i].0 && ':' !in pairs[i].1 && peers[i] == pairs[i].0 + ":" + pairs[i].1
  }

  lemma PeerParts(host: string, port: string, localIp: string)
    requires ':' !in host && ':' !in port
    ensures HasPort(host + ":" + port)
    ensures HostOf(host + ":" + port, localIp) == if host == "127.0.0.1" && localIp != "" then localIp else host
    ensures PortOf(host + ":" + port) == port
  {
    SplitPrefix(host, port, ':');
    SplitWhole(port, ':');
    assert host + ":" + port == host + [':'] + port;
  }

  /** The row has the port of some pair and its host, where the loopback host stands for the local address. */
  predicate AtSomePair(row: Row, pairs: seq<HostPort>, localIp: string) {
    exists i :: 0 <= i < |pairs| && row.equal("raft_port", pairs[i].1)
                && row.equal("ip", if pairs[i].0 == "127.0.0.1" && localIp != "" then localIp else pairs[i].0)
  }

  lemma AvailableByPairs(row: Row, peers: seq<string>, pairs: seq<HostPort>, localIp: string)
    requires SpeltOut(peers, pairs)
    ensures Available(row, peers, localIp) <==> row.recent && row.mode && AtSomePair(row, pairs, localIp)
  {
    forall i | 0 <= i < |pairs|
      ensures HasPort(peers[i])
      ensures Carries(row, (HostOf(peers[i], localIp), PortOf(peers[i])))
              <==> row.equal("raft_port", pairs[i].1)
                   && row.equal("ip", if pairs[i].0 == "127.0.0.1" && localIp != "" then localIp else pairs[i].0)
    {
      PeerParts(pairs[i].0, pairs[i].1, localIp);
    }
  }

  /** For peers given as hosts and ports the query is well formed and selects a row if and only if it is recent, of
      the requested mode, and has the host and port of some pair. */
  lemma QuerySelectsPairs(peers: seq<string>, pairs: seq<HostPort>, localIp: string, row: Row)
    requires SpeltOut(peers, pairs) && pairs != [] && Unquoted(peers, localIp)
    ensures var e := Meaning(Lex(QueryText(ConditionText(peers, localIp, |peers|))));
            e.Some? && (Holds(e.value, row) <==> row.recent && row.mode && AtSomePair(row, pairs, localIp))
  {
    PeerParts(pairs[0].0, pairs[0].1, localIp);
    PeerParts(pairs[|pairs| - 1].0, pairs[|pairs| - 1].1, localIp);
    QuerySelectsAvailable(peers, localIp, row);
    AvailableByPairs(row, peers, pairs, localIp);
  }

  // ---------------------------------------------------------------------------------------------
  // Reading the nodes

  datatype ReadError = RaftNotRunning | NoPeers | SyntaxError

  function Select(rows: seq<Row>, peers: seq<string>, localIp: string): seq<Row> {
    if rows == [] then []
    else Select(rows[..|rows| - 1], peers, localIp)
         + if Available(rows[|rows| - 1], peers, localIp) then [rows[|rows| - 1]] else []
  }

  /** The rows for which an expression holds, in their order. */
  function Filter(rows: seq<Row>, e: Expr): seq<Row> {
    if rows == [] then []
    else Filter(rows[..|rows| - 1], e) + if Holds(e, rows[|rows| - 1]) then [rows[|rows| - 1]] else []
  }

  lemma {:induction false} FilterIsSelect(rows: seq<Row>, e: Expr, peers: seq<string>, localIp: string)
    requires forall row :: row in rows ==> (Holds(e, row) <==> Available(row, peers, localIp))
    ensures Filter(rows, e) == Select(rows, peers, localIp)
  {
    if rows != [] {
      assert rows[|rows| - 1] in rows;
      FilterIsSelect(rows[..|rows| - 1], e, peers, localIp);
    }
  }

  /** What the query makes of the table. */
  lemma QueryReads(rows: seq<Row>, peers: seq<string>, localIp: string)
    requires peers != [] && Unquoted(peers, localIp)
    requires HasPort(peers[0]) && HasPort(peers[|peers| - 1])
    ensures var e := Meaning(Lex(QueryText(ConditionText(peers, localIp, |peers|))));
            e.Some? && Filter(rows, e.value) == Select(rows, peers, localIp)
  {
    QueryExpression(peers, localIp);
    var e := Both(Fresh, Both(Mode, OrExpr(Addresses(peers, localIp, |peers|))));
    forall row | row in rows
      ensures Holds(e, row) <==> Available(row, peers, localIp)
    {
      QuerySelectsAvailable(peers, localIp, row);
    }
    FilterIsSelect(rows, e, peers, localIp);
  }

  method QueryRows(e: Expr, rows: seq<Row>) returns (nodes: seq<Row>)
    ensures nodes == Filter(rows, e)
  {
    nodes := [];
    for i := 0 to |rows|
      invariant nodes == Filter(rows[..i], e)
    {
      assert rows[..i + 1][..i] == rows[..i];
      if Holds(e, rows[i]) {
        nodes := nodes + [rows[i]];
      }
    }
    assert rows[..|rows|] == rows;
  }

  /** The answer of the database to a query with this condition. */
  function QueryAnswer(whereCondition: string, rows: seq<Row>): Result<seq<Row>, ReadError> {
    match Meaning(Lex(QueryText(whereCondition)))
    case None => Err(SyntaxError)
    case Some(e) => Ok(Filter(rows, e))
  }

  method QueryDb(whereCondition: string, rows: seq<Row>) returns (r: Result<seq<Row>, ReadError>)
    ensures r == QueryAnswer(whereCondition, rows)
  {
    var meaning := Meaning(Lex(QueryText(whereCondition)));
    if meaning.None? {
      return Err(SyntaxError);
    }
    var nodes := QueryRows(meaning.value, rows);
    r := Ok(nodes);
  }

  /** The database answers the built query with exactly the available rows, or with a syntax error exactly when
      the first or the last peer has no port. */
  lemma QueryAnswers(rows: seq<Row>, peers: seq<string>, localIp: string)
    requires peers != [] && Unquoted(peers, localIp)
    ensures QueryAnswer(ConditionText(peers, localIp, |peers|), rows)
            == if HasPort(peers[0]) && HasPort(peers[|peers| - 1]) then Ok(Select(rows, peers, localIp)) else Err(SyntaxError)
  {
    QueryWellFormed(peers, localIp);
    if HasPort(peers[0]) && HasPort(peers[|peers| - 1]) {
      QueryReads(rows, peers, localIp);
    }
  }

  /** Builds the condition and queries the table with it. */
  method QueryPeers(peers: seq<string>, localIp: string, rows: seq<Row>) returns (r: Result<seq<Row>, ReadError>)
    requires peers != []
    ensures Unquoted(peers, localIp) ==>
              r == if HasPort(peers[0]) && HasPort(peers[|peers| - 1]) then Ok(Select(rows, peers, localIp)) else Err(SyntaxError)
  {
    var whereCondition := BuildCondition(peers, localIp);
    r := QueryDb(whereCondition, rows);
    if Unquoted(peers, localIp) {
      QueryAnswers(rows, peers, localIp);
    }
  }

  /** Reads the available nodes out of the table `rows`, taken in the order of their host names. `raftPeers`
      is None when raft is not running. */
  method ReadAvailableNodes(raftPeers: Option<seq<string>>, localIp: string, rows: seq<Row>)
    returns (r: Result<seq<Row>, ReadError>)
    ensures raftPeers.None? ==> r == Err(RaftNotRunning)
    ensures raftPeers == Some([]) ==> r == Err(NoPeers)
    ensures raftPeers.Some? && raftPeers.value != [] && Unquoted(raftPeers.value, localIp) ==>
              var peers := raftPeers.value;
              if HasPort(peers[0]) && HasPort(peers[|peers| - 1]) then r == Ok(Select(rows, peers, localIp))
              else r == Err(SyntaxError)
  {
    if raftPeers.None? {
      return Err(RaftNotRunning);
    }
    var peers := raftPeers.value;
    if |peers| == 0 {
      return Err(NoPeers);
    }
    r := QueryPeers(peers, localIp, rows);
  }

  /** The rows of a table that are recent, of the requested mode, and at one of the pairs, in their order. */
  function AtPairs(rows: seq<Row>, pairs: seq<HostPort>, localIp: string): seq<Row> {
    if rows == [] then []
    else
      var row := rows[|rows| - 1];
      AtPairs(rows[..|rows| - 1], pairs, localIp)
      + if row.recent && row.mode && AtSomePair(row, pairs, localIp) then [row] else []
  }

  lemma {:induction false} SelectIsAtPairs(rows: seq<Row>, peers: seq<string>, pairs: seq<HostPort>, localIp: string)
    requires SpeltOut(peers, pairs)
    ensures Select(rows, peers, localIp) == AtPairs(rows, pairs, localIp)
  {
    if rows != [] {
      SelectIsAtPairs(rows[..|rows| - 1], peers, pairs, localIp);
      AvailableByPairs(rows[|rows| - 1], peers, pairs, localIp);
    }
  }

  /** Reads the available nodes when the raft peers are given as hosts and ports. */
  method ReadAtPairs(peers: seq<string>, pairs: seq<HostPort>, localIp: string, rows: seq<Row>)
    returns (r: Result<seq<Row>, ReadError>)
    requires SpeltOut(peers, pairs) && pairs != [] && Unquoted(peers, localIp)
    ensures r == Ok(AtPairs(rows, pairs, localIp))
  {
    r := ReadAvailableNodes(Some(peers), localIp, rows);
    PeerParts(pairs[0].0, pairs[0].1, localIp);
    PeerParts(pairs[|pairs| - 1].0, pairs[|pairs| - 1].1, localIp);
    SelectIsAtPairs(rows, peers, pairs, localIp);
  }

  /** The path from the configuration to the rows: with a default port, whatever nodes are configured, the query
      over the peers made of them is well formed and returns exactly the available rows. */
  method ReadFromConfiguration(nodes: seq<string>, advertise: string, resolve: string -> Result<string, string>,
                               defaultPort: string, localIp: string, rows: seq<Row>)
    returns (peers: Result<seq<string>, string>, r: Result<seq<Row>, ReadError>)
    ensures peers.Ok? && peers.value != [] && defaultPort != "" && Unquoted(peers.value, localIp) ==>
              r == Ok(Select(rows, peers.value, localIp))
    ensures peers == Ok([]) ==> r == Err(NoPeers)
    ensures peers.Err? <==> exists i :: 0 <= i < |nodes| && NormalizeRaftNode(nodes[i], resolve, defaultPort).Err?
  {
    ghost var peerNodes;
    peers, peerNodes := BuildPeers(nodes, advertise, resolve, defaultPort);
    r := ReadAvailableNodes(if peers.Ok? then Some(peers.value) else None, localIp, rows);
  }
}
