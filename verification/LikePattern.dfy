/** The two comparisons a cleanup plan selects portfolios with, and the text literal they are written as. */
module LikePattern {

  /** SQL LIKE with the default escape character. */
  predicate Like(pattern: string, s: string)
    decreases |pattern| + |s|
  {
    if pattern == "" then s == ""
    else if pattern[0] == '%' then Like(pattern[1..], s) || (s != "" && Like(pattern, s[1..]))
    else if s == "" then false
    else if pattern[0] == '_' then Like(pattern[1..], s[1..])
    else if pattern[0] == '\\' then |pattern| > 1 && s[0] == pattern[1] && Like(pattern[2..], s[1..])
    else s[0] == pattern[0] && Like(pattern[1..], s[1..])
  }

  // ---------------------------------------------------------------- what a pattern means

  datatype Token = Anything | AnyOne | Just(c: char)

  /** The tokens of a pattern; a backslash takes the next character literally. */
  function Tokens(pattern: string): seq<Token>
  {
    if pattern == "" then []
    else if pattern[0] == '\\' && |pattern| > 1 then [Just(pattern[1])] + Tokens(pattern[2..])
    else [if pattern[0] == '%' then Anything else if pattern[0] == '_' then AnyOne else Just(pattern[0])]
         + Tokens(pattern[1..])
  }

  /** A backslash that escapes nothing. */
  predicate Dangling(pattern: string)
  {
    pattern != ""
    && if pattern[0] == '\\' then |pattern| == 1 || Dangling(pattern[2..]) else Dangling(pattern[1..])
  }

  predicate TokenTakes(k: Token, piece: string)
  {
    match k
    case Anything => true
    case AnyOne => |piece| == 1
    case Just(c) => piece == [c]
  }

  function Concat(pieces: seq<string>): string
  {
    if pieces == [] then "" else pieces[0] + Concat(pieces[1..])
  }

  /** The text is cut into one piece for each token. */
  ghost predicate Cut(ks: seq<Token>, pieces: seq<string>, s: string)
  {
    |pieces| == |ks| && Concat(pieces) == s && forall i | 0 <= i < |ks| :: TokenTakes(ks[i], pieces[i])
  }

  lemma CutFirst(k: Token, ks: seq<Token>, piece: string, pieces: seq<string>, s: string)
    requires TokenTakes(k, piece) && Cut(ks, pieces, s)
    ensures Cut([k] + ks, [piece] + pieces, piece + s)
  {
    assert ([piece] + pieces)[1..] == pieces;
  }

  lemma CutRest(k: Token, ks: seq<Token>, pieces: seq<string>, s: string)
    requires Cut([k] + ks, pieces, s)
    ensures pieces != [] && TokenTakes(k, pieces[0]) && s == pieces[0] + Concat(pieces[1..])
    ensures Cut(ks, pieces[1..], Concat(pieces[1..]))
  {
    forall i | 0 <= i < |ks| ensures TokenTakes(ks[i], pieces[1..][i]) { assert ([k] + ks)[i + 1] == ks[i]; }
  }

  /** One character of the text is matched by the first token, and the rest by the rest. */
  lemma CutOne(k: Token, ks: seq<Token>, pieces: seq<string>, s: string)
    requires s != "" && TokenTakes(k, [s[0]]) && Cut(ks, pieces, s[1..])
    ensures Cut([k] + ks, [[s[0]]] + pieces, s)
  {
    CutFirst(k, ks, [s[0]], pieces, s[1..]);
    assert [s[0]] + s[1..] == s;
  }

  /** `%` takes one character more. */
  lemma CutMore(ks: seq<Token>, pieces: seq<string>, s: string)
    requires s != "" && Cut([Anything] + ks, pieces, s[1..])
    ensures pieces != [] && Cut([Anything] + ks, [[s[0]] + pieces[0]] + pieces[1..], s)
  {
    CutRest(Anything, ks, pieces, s[1..]);
    CutFirst(Anything, ks, [s[0]] + pieces[0], pieces[1..], Concat(pieces[1..]));
    assert ([s[0]] + pieces[0]) + Concat(pieces[1..]) == [s[0]] + s[1..] == s;
  }

  lemma {:induction false} LikeCuts(pattern: string, s: string) returns (pieces: seq<string>)
    requires Like(pattern, s)
    ensures Cut(Tokens(pattern), pieces, s) && !Dangling(pattern)
    decreases |pattern| + |s|
  {
    hide Cut;
    if pattern == "" {
      pieces := [];
      NothingCut();
    } else if pattern[0] == '%' {
      if Like(pattern[1..], s) {
        var rest := LikeCuts(pattern[1..], s);
        CutFirst(Anything, Tokens(pattern[1..]), "", rest, s);
        pieces := [""] + rest;
        assert "" + s == s;
      } else {
        var more := LikeCuts(pattern, s[1..]);
        CutMore(Tokens(pattern[1..]), more, s);
        pieces := [[s[0]] + more[0]] + more[1..];
      }
    } else {
      pieces := LikeCutsOne(pattern, s);
    }
  }

  lemma NothingCut()
    ensures Cut([], [], "")
  {
  }

  lemma {:induction false} LikeCutsOne(pattern: string, s: string) returns (pieces: seq<string>)
    requires Like(pattern, s) && pattern != "" && pattern[0] != '%'
    ensures Cut(Tokens(pattern), pieces, s) && !Dangling(pattern)
    decreases |pattern| + |s|, 0
  {
    hide Cut;
    var next := if pattern[0] == '\\' then pattern[2..] else pattern[1..];
    var rest := LikeCuts(next, s[1..]);
    CutOne(Tokens(pattern)[0], Tokens(next), rest, s);
    pieces := [[s[0]]] + rest;
  }

  lemma {:induction false} PercentTakes(p: string, piece: string, s: string)
    requires p != "" && p[0] == '%' && Like(p[1..], s)
    ensures Like(p, piece + s)
    decreases |piece|
  {
    if piece == "" {
      assert piece + s == s;
    } else {
      PercentTakes(p, piece[1..], s);
      assert (piece + s)[1..] == piece[1..] + s;
    }
  }

  lemma {:induction false} CutIsLike(pattern: string, pieces: seq<string>, s: string)
    requires Cut(Tokens(pattern), pieces, s) && !Dangling(pattern)
    ensures Like(pattern, s)
    decreases |pattern|
  {
    if pattern != "" {
      var escaped := pattern[0] == '\\';
      var rest := if escaped then pattern[2..] else pattern[1..];
      var k := Tokens(pattern)[0];
      assert Tokens(pattern) == [k] + Tokens(rest);
      CutRest(k, Tokens(rest), pieces, s);
      CutIsLike(rest, pieces[1..], Concat(pieces[1..]));
      if pattern[0] == '%' {
        PercentTakes(pattern, pieces[0], Concat(pieces[1..]));
      } else {
        assert s[0] == pieces[0][0] && s[1..] == Concat(pieces[1..]);
      }
    }
  }

  ghost predicate Cuttable(ks: seq<Token>, s: string)
  {
    exists pieces :: Cut(ks, pieces, s)
  }

  /** A text matches exactly when it can be cut along the pattern. */
  lemma LikeExactly(pattern: string, s: string)
    ensures Like(pattern, s) <==> !Dangling(pattern) && Cuttable(Tokens(pattern), s)
  {
    var ks := Tokens(pattern);
    if Like(pattern, s) {
      var pieces := LikeCuts(pattern, s);
      assert Cut(ks, pieces, s);
    } else if !Dangling(pattern) && Cuttable(ks, s) {
      var pieces :| Cut(ks, pieces, s);
      CutIsLike(pattern, pieces, s);
    }
  }

  // ---------------------------------------------------------------- prefix selection

  predicate Special(c: char)
  {
    c == '%' || c == '_' || c == '\\'
  }

  predicate Literal(p: string)
  {
    forall i | 0 <= i < |p| :: !Special(p[i])
  }

  lemma {:induction false} TrailingPercent(s: string)
    ensures Like("%", s)
  {
    if s != "" { TrailingPercent(s[1..]); }
  }

  lemma {:induction false} LiteralPrefix(p: string, s: string)
    requires Literal(p)
    ensures Like(p + "%", s) <==> p <= s
  {
    if p == "" {
      assert p + "%" == "%";
      TrailingPercent(s);
    } else if s != "" {
      assert (p + "%")[1..] == p[1..] + "%";
      LiteralPrefix(p[1..], s[1..]);
      assert p == [p[0]] + p[1..] && s == [s[0]] + s[1..];
    }
  }

  /** One text matching the pattern: `%` stands for nothing, `_` for a letter. */
  function Instance(pattern: string): string
  {
    if pattern == "" then ""
    else if pattern[0] == '%' then Instance(pattern[1..])
    else if pattern[0] == '_' then "a" + Instance(pattern[1..])
    else if pattern[0] == '\\' && |pattern| > 1 then [pattern[1]] + Instance(pattern[2..])
    else [pattern[0]] + Instance(pattern[1..])
  }

  lemma {:induction false} InstanceMatches(p: string)
    ensures Like(p + "%", Instance(p + "%"))
  {
    var q := p + "%";
    if p == "" {
      assert q == "%" && q[1..] == "";
    } else {
      assert q[1..] == p[1..] + "%";
      InstanceMatches(p[1..]);
      if p[0] == '\\' {
        if |p| == 1 {
          assert q[2..] == "";
        } else {
          assert q[2..] == p[2..] + "%";
          InstanceMatches(p[2..]);
        }
      }
    }
  }

  lemma {:induction false} InstanceShorter(p: string)
    ensures |Instance(p + "%")| <= |p|
  {
    var q := p + "%";
    if p == "" {
      assert q[1..] == "";
    } else {
      assert q[1..] == p[1..] + "%";
      InstanceShorter(p[1..]);
      if p[0] == '\\' {
        if |p| == 1 {
          assert q[2..] == "";
        } else {
          assert q[2..] == p[2..] + "%";
          InstanceShorter(p[2..]);
        }
      }
    }
  }

  lemma {:induction false} InstanceNotPrefixed(p: string)
    requires !Literal(p)
    ensures !(p <= Instance(p + "%"))
  {
    var q := p + "%";
    assert q[1..] == p[1..] + "%";
    InstanceShorter(p[1..]);
    if p[0] == '\\' {
      if |p| == 1 {
        assert q[2..] == "";
      } else {
        assert q[2..] == p[2..] + "%";
        InstanceShorter(p[2..]);
      }
    } else if !Special(p[0]) {
      var i :| 0 <= i < |p| && Special(p[i]);
      assert p[1..][i - 1] == p[i];
      InstanceNotPrefixed(p[1..]);
      assert p == [p[0]] + p[1..];
      assert Instance(q) == [p[0]] + Instance(p[1..] + "%");
    }
  }

  /** Prefix selection means "starts with" exactly for selectors free of LIKE's special characters. */
  lemma PrefixModeExactly(selector: string)
    ensures Literal(selector) <==> forall s :: Like(selector + "%", s) <==> selector <= s
  {
    if Literal(selector) {
      forall s ensures Like(selector + "%", s) <==> selector <= s { LiteralPrefix(selector, s); }
    } else {
      InstanceMatches(selector);
      InstanceNotPrefixed(selector);
      var s := Instance(selector + "%");
      assert !(Like(selector + "%", s) <==> selector <= s);
    }
  }

  /** An underscore in the selector also takes in a portfolio that does not start with it. */
  lemma UnderscoreOverreaches()
    ensures Like("PB_1" + "%", "PBX12") && !("PB_1" <= "PBX12")
  {
    var q := "PB_1" + "%";
    assert q == "PB_1%";
    TrailingPercent("2");
    assert q[1..] == "B_1%" && q[1..][1..] == "_1%" && q[1..][1..][1..] == "1%" && q[1..][1..][1..][1..] == "%";
    var s := "PBX12";
    assert s[1..] == "BX12" && s[1..][1..] == "X12" && s[1..][1..][1..] == "12" && s[1..][1..][1..][1..] == "2";
    assert Like("1%", "12");
    assert Like("_1%", "X12");
    assert Like("B_1%", "BX12");
  }

  // ---------------------------------------------------------------- the literal

  function Doubled(value: string): string
  {
    if value == "" then ""
    else (if value[0] == '\'' then "''" else [value[0]]) + Doubled(value[1..])
  }

  function SqlLiteral(value: string): string
  {
    "'" + Doubled(value) + "'"
  }

  /** The lexer's side: the text up to the first quote that is not doubled, and what follows it. */
  function ReadQuoted(s: string): (string, string)
  {
    if s == "" then ("", "")
    else if s[0] != '\'' then var r := ReadQuoted(s[1..]); ([s[0]] + r.0, r.1)
    else if |s| > 1 && s[1] == '\'' then var r := ReadQuoted(s[2..]); ("'" + r.0, r.1)
    else ("", s[1..])
  }

  /** A literal is read back as its value, and the statement goes on right after it, whatever the value. */
  lemma {:induction false} SqlLiteralRoundTrip(value: string, rest: string)
    requires rest != "" ==> rest[0] != '\''
    ensures ReadQuoted((SqlLiteral(value) + rest)[1..]) == (value, rest)
  {
    assert (SqlLiteral(value) + rest)[1..] == Doubled(value) + "'" + rest;
    DoubledReadBack(value, rest);
  }

  lemma {:induction false} DoubledReadBack(value: string, rest: string)
    requires rest != "" ==> rest[0] != '\''
    ensures ReadQuoted(Doubled(value) + "'" + rest) == (value, rest)
  {
    var s := Doubled(value) + "'" + rest;
    if value == "" {
      assert s == "'" + rest && s[1..] == rest;
    } else {
      DoubledReadBack(value[1..], rest);
      var tail := Doubled(value[1..]) + "'" + rest;
      assert value == [value[0]] + value[1..];
      if value[0] == '\'' {
        assert s == "''" + tail && s[2..] == tail;
      } else {
        assert s == [value[0]] + tail && s[1..] == tail;
      }
    }
  }
}
