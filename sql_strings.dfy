/**
 * Text operations the generator relies on: `string.Replace("'", "''")`,
 * `string.Join`, and a reader for SQL string literals that undoes the
 * quote doubling.
 */
module SqlStrings {
  import opened Optional

  /** The number of single-quote characters in `s`. */
  function QuoteCount(s: string): nat {
    if s == [] then 0 else (if s[0] == '\'' then 1 else 0) + QuoteCount(s[1..])
  }

  /**
   * `s.Replace("'", "''")`: every single quote doubled, nothing else touched.
   * Each quote adds exactly one character.
   */
  function Escape(s: string): (r: string)
    ensures |r| == |s| + QuoteCount(s)
  {
    if s == [] then []
    else (if s[0] == '\'' then "''" else [s[0]]) + Escape(s[1..])
  }

  /** The quote count of a concatenation is the sum of the parts' counts. */
  lemma {:induction false} QuoteCountConcat(a: string, b: string)
    ensures QuoteCount(a + b) == QuoteCount(a) + QuoteCount(b)
  {
    if a == [] {
      assert a + b == b;
    } else {
      assert (a + b)[1..] == a[1..] + b;
      QuoteCountConcat(a[1..], b);
    }
  }

  /** Escaping doubles the number of quotes. */
  lemma {:induction false} EscapeQuoteCount(s: string)
    ensures QuoteCount(Escape(s)) == 2 * QuoteCount(s)
  {
    if s != [] {
      EscapeQuoteCount(s[1..]);
      var head := if s[0] == '\'' then "''" else [s[0]];
      QuoteCountConcat(head, Escape(s[1..]));
      if s[0] == '\'' {
        assert head[1..] == "'";
        assert QuoteCount(head) == 2;
      }
    }
  }

  /** Escaping keeps the number of occurrences of every character other than the quote. */
  lemma {:induction false} EscapeKeepsOtherCharacters(s: string, c: char)
    requires c != '\''
    ensures multiset(Escape(s))[c] == multiset(s)[c]
  {
    if s != [] {
      EscapeKeepsOtherCharacters(s[1..], c);
      var head := if s[0] == '\'' then "''" else [s[0]];
      assert Escape(s) == head + Escape(s[1..]);
      assert s == [s[0]] + s[1..];
    }
  }

  /**
   * Reads the body of a SQL string literal whose opening quote is already
   * consumed: `''` stands for one quote, a lone `'` ends the literal.
   * Gives the text denoted and what follows the closing quote, or None
   * when the literal is not closed.
   */
  function ReadQuotedBody(t: string): (r: Option<(string, string)>)
    ensures r.Some? ==> |r.value.1| < |t|
    decreases |t|
  {
    if t == [] then None
    else if t[0] == '\'' then
      if |t| >= 2 && t[1] == '\'' then
        match ReadQuotedBody(t[2..])
        case None => None
        case Some((body, rest)) => Some(("'" + body, rest))
      else Some(("", t[1..]))
    else
      match ReadQuotedBody(t[1..])
      case None => None
      case Some((body, rest)) => Some(([t[0]] + body, rest))
  }

  /** Reads one SQL string literal at the start of `t`. */
  function ReadStringLiteral(t: string): Option<(string, string)> {
    if |t| > 0 && t[0] == '\'' then ReadQuotedBody(t[1..]) else None
  }

  /** The literal the generator writes for a text value. */
  function QuotedLiteral(s: string): (r: string)
    ensures |r| == |s| + 2 + QuoteCount(s) && r[0] == '\'' && r[|r| - 1] == '\''
  {
    "'" + Escape(s) + "'"
  }

  /**
   * Reading an escaped body followed by the closing quote gives back the
   * original text, and stops exactly after that quote, whatever follows
   * (as long as it does not itself start with a quote).
   */
  lemma {:induction false} ReadEscapedBody(s: string, rest: string)
    requires rest == [] || rest[0] != '\''
    ensures ReadQuotedBody(Escape(s) + "'" + rest) == Some((s, rest))
  {
    var t := Escape(s) + "'" + rest;
    if s == [] {
      assert t == "'" + rest;
      assert t[1..] == rest;
    } else {
      ReadEscapedBody(s[1..], rest);
      var tail := Escape(s[1..]) + "'" + rest;
      if s[0] == '\'' {
        assert t == "''" + tail;
        assert t[2..] == tail;
      } else {
        assert t == [s[0]] + tail;
        assert t[1..] == tail;
      }
      assert s == [s[0]] + s[1..];
    }
  }

  /**
   * Quote-escaping round trip: the literal of `s`, followed by anything that
   * does not start with a quote, reads back as exactly `s` and leaves the
   * rest untouched, so no value can end its literal early.
   */
  lemma QuotedLiteralRoundTrip(s: string, rest: string)
    requires rest == [] || rest[0] != '\''
    ensures ReadStringLiteral(QuotedLiteral(s) + rest) == Some((s, rest))
  {
    var t := QuotedLiteral(s) + rest;
    assert t[1..] == Escape(s) + "'" + rest;
    ReadEscapedBody(s, rest);
  }

  /** `string.Join(sep, xs)`: the items in order with `sep` between neighbours. */
  function Join(sep: string, xs: seq<string>): string
    decreases |xs|
  {
    if |xs| == 0 then ""
    else if |xs| == 1 then xs[0]
    else xs[0] + sep + Join(sep, xs[1..])
  }

  /** A character in neither the separator nor any item is not in the join. */
  lemma {:induction false} JoinAvoids(sep: string, xs: seq<string>, c: char)
    requires c !in sep
    requires forall i :: 0 <= i < |xs| ==> c !in xs[i]
    ensures c !in Join(sep, xs)
    decreases |xs|
  {
    if |xs| > 1 {
      JoinAvoids(sep, xs[1..], c);
      assert xs[0] + sep + Join(sep, xs[1..]) == Join(sep, xs);
    }
  }
}
