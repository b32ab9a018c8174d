// What the bytes written by mdbv8_strbuf_appendc() mean to whoever reads them, told without
// reference to the writer (src/mdb_v8_strbuf.c:115-159).

module Escapes {
  import opened Helpers
  import opened Wrappers
  import opened StringBuffer

  // A string literal that has been read: its text, and what follows its closing quote.
  datatype Literal = Literal(text: string, rest: string)

  const BACKSPACE := 8 as char

  // The character that an escape sequence stands for.
  function Unescaped(c: char): Option<char> {
    if c == 'n' then Some('\n')
    else if c == 'r' then Some('\r')
    else if c == 'b' then Some(BACKSPACE)
    else if c == '\\' || c == '"' then Some(c)
    else None
  }

  // Reading a JSON string literal, from behind its opening quote: control characters are not
  // allowed, and a literal must be closed.
  function ReadLiteral(s: string): Option<Literal> {
    if s == "" || s[0] < ' ' then None
    else if s[0] == '"' then Some(Literal("", s[1..]))
    else if s[0] != '\\' then Prefixed(s[0], ReadLiteral(s[1..]))
    else if |s| == 1 || Unescaped(s[1]).None? then None
    else Prefixed(Unescaped(s[1]).value, ReadLiteral(s[2..]))
  }

  function Prefixed(c: char, tail: Option<Literal>): Option<Literal> {
    match tail
    case None => None
    case Some(lit) => Some(Literal([c] + lit.text, lit.rest))
  }

  // A text as it can be shown in JSON: what is neither printable ASCII nor one of three control
  // characters is replaced.
  function ShownChar(c: Code): char {
    if c >= 128 then '?'
    else
      var ch := c as char;
      if ch == '\n' || ch == '\r' || ch == BACKSPACE || ' ' <= ch <= '~' then ch else '?'
  }

  function Shown(s: seq<Code>): string {
    seq(|s|, i requires 0 <= i < |s| => ShownChar(s[i]))
  }

  // One character that is not a quote is read back from what is written for it.
  lemma CharReadsBack(c: Code, rest: string)
    requires c != QUOTE
    ensures ReadLiteral(Emit(c, Json) + rest) == Prefixed(ShownChar(c), ReadLiteral(rest))
  {
    var e := Emit(c, Json);
    var s := e + rest;
    assert s[|e|..] == rest && s[0] == e[0];
    if |e| == 2 {
      assert s[0] == '\\' && s[1] == e[1] && Unescaped(e[1]) == Some(ShownChar(c));
    } else {
      assert e == [ShownChar(c)] && ShownChar(c) != '\\' && ShownChar(c) != '"';
    }
  }

  // A text without quotes is read back from what is written for it in JSON mode.
  lemma {:induction false} JsonReadsBack(s: seq<Code>, rest: string)
    requires QUOTE !in s
    ensures ReadLiteral(Encode(s, Json) + "\"" + rest) == Some(Literal(Shown(s), rest))
  {
    if s == [] {
      assert Encode(s, Json) + "\"" + rest == "\"" + rest;
    } else {
      var others := Encode(s[1..], Json);
      JsonReadsBack(s[1..], rest);
      CharReadsBack(s[0], others + "\"" + rest);
      Associative(Emit(s[0], Json), others, "\"");
      Associative(Emit(s[0], Json), others + "\"", rest);
      assert Shown(s) == [ShownChar(s[0])] + Shown(s[1..]);
    }
  }

  // With a quote in it, it is not: the literal ends there.
  lemma JsonEndsAtQuote(s: seq<Code>, t: seq<Code>, rest: string)
    requires QUOTE !in s
    ensures ReadLiteral(Encode(s + [QUOTE] + t, Json) + "\"" + rest)
         == Some(Literal(Shown(s), Encode(t, Json) + "\"" + rest))
  {
    EncodeConcat(s + [QUOTE], t, Json);
    EncodeConcat(s, [QUOTE], Json);
    assert Encode([QUOTE], Json) == "\"";
    var first, second := Encode(s, Json) + "\"", Encode(t, Json);
    Associative(first, second, "\"");
    Associative(first, second + "\"", rest);
    JsonReadsBack(s, second + "\"" + rest);
  }

  lemma {:induction false} FirstQuote(s: seq<Code>) returns (k: nat)
    requires QUOTE in s
    ensures k < |s| && s[k] == QUOTE && QUOTE !in s[..k]
  {
    if s[0] == QUOTE {
      k := 0;
    } else {
      k := FirstQuote(s[1..]);
      assert s[..k + 1] == [s[0]] + s[1..][..k];
      k := k + 1;
    }
  }

  // What is written for a text in JSON mode, in quotes, is a JSON literal for that text exactly if
  // there is no quote in it.
  lemma JsonReadsBackIff(s: seq<Code>)
    ensures ReadLiteral(Encode(s, Json) + "\"") == Some(Literal(Shown(s), "")) <==> QUOTE !in s
  {
    assert Encode(s, Json) + "\"" + "" == Encode(s, Json) + "\"";
    if QUOTE !in s {
      JsonReadsBack(s, "");
    } else {
      var k := FirstQuote(s);
      assert s == s[..k] + [QUOTE] + s[k + 1..];
      JsonEndsAtQuote(s[..k], s[k + 1..], "");
      assert |Shown(s[..k])| < |Shown(s)|;
    }
  }

  // An input that fails: the text a"b is cut after its first character.
  lemma QuoteEndsLiteral()
    ensures ReadLiteral(Encode([97, QUOTE, 98], Json) + "\"") == Some(Literal("a", "b\""))
  {
    assert [97] + [QUOTE] + [98] == [97, QUOTE, 98];
    JsonEndsAtQuote([97], [98], "");
    assert Encode([98], Json) == "b" && "b" + "\"" + "" == "b\"";
    assert Encode([97, QUOTE, 98], Json) + "\"" + "" == Encode([97, QUOTE, 98], Json) + "\"";
    assert Shown([97]) == "a";
  }

  // In the other modes one byte is written for each character: the low byte of its code, or a
  // question mark for what is not ASCII.
  lemma {:induction false} PlainBytes(s: seq<Code>, i: nat)
    requires i < |s|
    ensures |Encode(s, Plain)| == |s| == |Encode(s, AsciiOnly)|
    ensures Encode(s, Plain)[i] as int == s[i] % 256
    ensures Encode(s, AsciiOnly)[i] == if s[i] < 128 then s[i] as char else '?'
  {
    if |s| > 1 {
      PlainBytes(s[1..], if i > 0 then i - 1 else 0);
    } else {
      assert s[1..] == [];
    }
  }

  // So a C string is written as it is.
  lemma CStringIsCopied(src: string)
    requires forall i | 0 <= i < |src| :: src[i] as int < 256
    ensures Encode(Codes(src), Plain) == src
  {
    if src != "" {
      PlainBytes(Codes(src), 0);
    }
    forall i | 0 <= i < |src| ensures Encode(Codes(src), Plain)[i] == src[i] {
      PlainBytes(Codes(src), i);
    }
  }
}
