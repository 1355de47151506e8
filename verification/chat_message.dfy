/**
 * The chat packet: its ids, the inbound path that turns a received message
 * into the text broadcast to everyone, and the outbound frame that wraps the
 * text in a JSON chat object.
 */
module ChatMessage {
  import opened Wrappers
  import opened Seqs

  /** The id the packet is read under, set by both constructors. */
  const ReadId := 0x01

  /** The id the packet is sent under, set by both constructors. */
  const SendId := 0x02

  datatype Packet = Packet(readId: int, sendId: int, message: string)

  /**
   * A new chat packet, from either constructor. The message starts unset; C#
   * concatenation reads an unset string as empty, so the model starts it empty.
   */
  function New(): (p: Packet)
    ensures p.readId == 0x01 && p.sendId == 0x02 && p.message == ""
  {
    Packet(ReadId, SendId, "")
  }

  /** `s.Replace(c, rep)` for a one-character pattern: every `c` becomes `rep`. */
  function ReplaceChar(s: string, c: char, rep: string): (r: string)
    ensures c !in s ==> r == s
    ensures c !in rep ==> c !in r
    ensures forall x :: x != c && x !in rep ==> (x in r <==> x in s)
    ensures |s| == 1 ==> r == (if s[0] == c then rep else s)
    decreases |s|
  {
    if |s| == 0 then ""
    else
      assert forall x :: x in s <==> x == s[0] || x in s[1..];
      (if s[0] == c then rep else [s[0]]) + ReplaceChar(s[1..], c, rep)
  }

  /** Replacement works piecewise over a concatenation. */
  lemma {:induction false} ReplaceConcat(a: string, b: string, c: char, rep: string)
    ensures ReplaceChar(a + b, c, rep) == ReplaceChar(a, c, rep) + ReplaceChar(b, c, rep)
    decreases |a|
  {
    if |a| > 0 {
      ReplaceConcat(a[1..], b, c, rep);
      assert (a + b)[1..] == a[1..] + b;
    } else {
      assert a + b == b;
    }
  }

  /** A text without `c` is left alone by replacing `c`. */
  lemma {:induction false} ReplaceAbsent(s: string, c: char, rep: string)
    requires c !in s
    ensures ReplaceChar(s, c, rep) == s
    decreases |s|
  {
    if |s| > 0 {
      ReplaceAbsent(s[1..], c, rep);
    }
  }

  /** The escape chain of `Read`, applied after line breaks are gone: backslashes doubled, then `"` turned into `''`. */
  function Escape(s: string): (r: string)
    ensures '"' !in r
    ensures '\\' !in s && '"' !in s ==> r == s
    ensures forall x :: x != '\\' && x != '"' && x != '\'' ==> (x in r <==> x in s)
  {
    ReplaceChar(ReplaceChar(s, '\\', "\\\\"), '"', "''")
  }

  /** The escape of one character, the reference the chain is compared with. */
  function EscapeChar(c: char): string
  {
    if c == '\\' then "\\\\" else if c == '"' then "''" else [c]
  }

  /** The text escaped one character at a time, left to right. */
  function EscapeEach(s: string): string
    decreases |s|
  {
    if |s| == 0 then "" else EscapeChar(s[0]) + EscapeEach(s[1..])
  }

  /** The two-pass replace chain is the same as escaping each character on its own. */
  lemma {:induction false} EscapeIsPerCharacter(s: string)
    ensures Escape(s) == EscapeEach(s)
    decreases |s|
  {
    if |s| > 0 {
      var head := if s[0] == '\\' then "\\\\" else [s[0]];
      var tail := ReplaceChar(s[1..], '\\', "\\\\");
      assert ReplaceChar(s, '\\', "\\\\") == head + tail;
      ReplaceConcat(head, tail, '"', "''");
      EscapeIsPerCharacter(s[1..]);
      if s[0] == '\\' {
        assert ReplaceChar(head, '"', "''") == "\\\\" by {
          ReplaceAbsent(head, '"', "''");
        }
      } else {
        assert ReplaceChar(head, '"', "''") == EscapeChar(s[0]) by {
          assert head == [s[0]];
          assert ReplaceChar(head[1..], '"', "''") == "";
        }
      }
    }
  }

  /** The escaped length: one extra character for every backslash and every double quote. */
  lemma EscapeLength(s: string)
    ensures |Escape(s)| == |s| + multiset(s)['\\'] + multiset(s)['"']
  {
    EscapeIsPerCharacter(s);
    EscapeEachLength(s);
  }

  /** The length of the per-character escape. */
  lemma {:induction false} EscapeEachLength(s: string)
    ensures |EscapeEach(s)| == |s| + multiset(s)['\\'] + multiset(s)['"']
    decreases |s|
  {
    if |s| > 0 {
      EscapeEachLength(s[1..]);
      assert s == [s[0]] + s[1..];
      assert multiset(s) == multiset{s[0]} + multiset(s[1..]);
    }
  }

  /** How often `d` occurs once the text is escaped, given how often characters occur in `m`. */
  function EscapedCount(m: multiset<char>, d: char): nat
  {
    if d == '\\' then 2 * m[d]
    else if d == '"' then 0
    else if d == '\'' then m[d] + 2 * m['"']
    else m[d]
  }

  /**
   * Character counts of the escape: backslashes double, double quotes vanish,
   * each becoming two apostrophes, and every other character keeps its count.
   */
  lemma EscapeCounts(s: string, d: char)
    ensures multiset(Escape(s))[d] == EscapedCount(multiset(s), d)
  {
    EscapeIsPerCharacter(s);
    EscapeEachCounts(s, d);
  }

  /** The counts for the per-character escape, by induction over the text. */
  lemma {:induction false} EscapeEachCounts(s: string, d: char)
    ensures multiset(EscapeEach(s))[d] == EscapedCount(multiset(s), d)
    decreases |s|
  {
    if |s| > 0 {
      EscapeEachCounts(s[1..], d);
      assert s == [s[0]] + s[1..];
      var ms := multiset(s[1..]);
      assert multiset(s) == multiset{s[0]} + ms;
      assert multiset(EscapeEach(s)) == multiset(EscapeChar(s[0])) + multiset(EscapeEach(s[1..]));
      EscapeCharCount(s[0], d);
      EscapedCountAdd(multiset{s[0]}, ms, d);
    }
  }

  /** Escaped counts add up over the parts of a text. */
  lemma EscapedCountAdd(m1: multiset<char>, m2: multiset<char>, d: char)
    ensures EscapedCount(m1 + m2, d) == EscapedCount(m1, d) + EscapedCount(m2, d)
  {
  }

  /** The counts for one escaped character. */
  lemma EscapeCharCount(c: char, d: char)
    ensures multiset(EscapeChar(c))[d] == EscapedCount(multiset{c}, d)
  {
  }

  /** No double quote survives the escape. */
  lemma EscapeRemovesQuotes(s: string)
    ensures '"' !in Escape(s)
  {
    EscapeCounts(s, '"');
  }

  /** A text with no backslash and no double quote is its own escape. */
  lemma EscapeIdentity(s: string)
    requires '\\' !in s && '"' !in s
    ensures Escape(s) == s
  {
    ReplaceAbsent(s, '\\', "\\\\");
    ReplaceAbsent(s, '"', "''");
  }

  /**
   * The body of a JSON string literal decoded (section 7 of RFC 8259): a raw
   * `"`, a raw control character or an unknown escape is an error. The `\u`
   * escape is not decoded.
   */
  function DecodeJsonString(s: string): Option<string>
    decreases |s|
  {
    if |s| == 0 then Some("")
    else if s[0] == '"' || s[0] < ' ' then None
    else if s[0] != '\\' then
      match DecodeJsonString(s[1..])
      case Some(t) => Some([s[0]] + t)
      case None => None
    else if |s| < 2 then None
    else
      var e := s[1];
      var c := if e == '"' then Some('"') else if e == '\\' then Some('\\') else if e == '/' then Some('/')
               else if e == 'b' then Some(8 as char) else if e == 'f' then Some(12 as char)
               else if e == 'n' then Some('\n') else if e == 'r' then Some('\r') else if e == 't' then Some('\t')
               else None;
      match (c, DecodeJsonString(s[2..]))
      case (Some(x), Some(t)) => Some([x] + t)
      case _ => None
  }

  /** No control characters (the ones a JSON string must escape). */
  predicate Printable(s: string)
  {
    forall i :: 0 <= i < |s| ==> s[i] >= ' '
  }

  /**
   * The escaped text is a well-formed JSON string body: it decodes to the
   * text with every double quote shown as two apostrophes, and backslashes as
   * written. Only control characters stay the sender's problem.
   */
  lemma {:induction false} EscapeDecodes(s: string)
    requires Printable(s)
    ensures DecodeJsonString(Escape(s)) == Some(ReplaceChar(s, '"', "''"))
    decreases |s|
  {
    EscapeIsPerCharacter(s);
    if |s| > 0 {
      assert Printable(s[1..]) by {
        forall i | 0 <= i < |s| - 1 ensures s[1..][i] >= ' ' { assert s[1..][i] == s[i + 1]; }
      }
      EscapeDecodes(s[1..]);
      EscapeIsPerCharacter(s[1..]);
      var rest := EscapeEach(s[1..]);
      assert EscapeEach(s) == EscapeChar(s[0]) + rest;
      var tail := ReplaceChar(s[1..], '"', "''");
      assert ReplaceChar(s, '"', "''") == (if s[0] == '"' then "''" else [s[0]]) + tail;
      if s[0] == '\\' {
        var e := "\\\\" + rest;
        assert e[0] == '\\' && e[1] == '\\' && e[2..] == rest;
        assert DecodeJsonString(e) == Some(['\\'] + tail);
      } else {
        PlainDecodes(EscapeChar(s[0]), rest);
      }
    }
  }

  /** Only deletes characters: what a line-break remover may do to a message. */
  predicate OnlyDeletes(strip: string -> string, m: string)
  {
    IsSubsequence(strip(m), m)
  }

  /** One line-break remover: drops every carriage return and line feed. */
  function RemoveLineBreaks(s: string): (r: string)
    ensures IsSubsequence(r, s)
    ensures '\n' !in r && '\r' !in r
    decreases |s|
  {
    if |s| == 0 then ""
    else
      var rest := RemoveLineBreaks(s[1..]);
      assert s == [s[0]] + s[1..];
      SubsequenceCons(rest, s[0], s[1..]);
      if s[0] == '\n' || s[0] == '\r' then rest
      else
        assert ([s[0]] + rest)[1..] == rest;
        [s[0]] + rest
  }

  /**
   * `Read`: the packet keeps the received message, and the level broadcasts
   * `"<" + username + "> "` followed by the escaped message, line breaks
   * removed first by `strip`.
   */
  function Read(p: Packet, username: string, received: string, strip: string -> string): (r: (Packet, string))
    ensures r.0 == p.(message := received)
    ensures |r.1| >= |username| + 3
    ensures r.1[..|username| + 3] == "<" + username + "> "
    ensures '"' !in r.1[|username| + 3..]
    ensures OnlyDeletes(strip, received) ==> |r.1| <= |username| + 3 + 2 * |received|
    ensures r.1 == "<" + username + "> " + EscapeEach(strip(received))
  {
    var body := strip(received);
    var text := "<" + username + "> " + Escape(body);
    assert text[|username| + 3..] == Escape(body);
    EscapeIsPerCharacter(body);
    EscapeGrowth(strip, received);
    (p.(message := received), text)
  }

  /** When `strip` only deletes, the escaped message is at most twice as long as the received one. */
  lemma EscapeGrowth(strip: string -> string, received: string)
    ensures OnlyDeletes(strip, received) ==> |Escape(strip(received))| <= 2 * |received|
  {
    var body := strip(received);
    EscapeLength(body);
    SpecialsBound(body);
    if OnlyDeletes(strip, received) {
      SubsequenceLength(body, received);
    }
  }

  /** Backslashes and double quotes together are at most the whole text. */
  lemma {:induction false} SpecialsBound(s: string)
    ensures multiset(s)['\\'] + multiset(s)['"'] <= |s|
    decreases |s|
  {
    if |s| > 0 {
      SpecialsBound(s[1..]);
      assert s == [s[0]] + s[1..];
      assert multiset(s) == multiset{s[0]} + multiset(s[1..]);
    }
  }

  /** The text `Read` broadcasts is a well-formed JSON string body when the username needs no escaping. */
  lemma {:induction false} ReadDecodes(p: Packet, username: string, received: string, strip: string -> string)
    requires '"' !in username && '\\' !in username && Printable(username)
    requires Printable(strip(received))
    ensures DecodeJsonString(Read(p, username, received, strip).1)
            == Some("<" + username + "> " + ReplaceChar(strip(received), '"', "''"))
  {
    var head := "<" + username + "> ";
    var body := strip(received);
    EscapeDecodes(body);
    PlainDecodes(head, Escape(body));
    assert Read(p, username, received, strip).1 == head + Escape(body);
  }

  /** Text with no `"`, no backslash and no control character decodes to itself in front of whatever follows. */
  lemma {:induction false} PlainDecodes(a: string, b: string)
    requires '"' !in a && '\\' !in a && Printable(a)
    ensures DecodeJsonString(b).Some? ==> DecodeJsonString(a + b) == Some(a + DecodeJsonString(b).value)
    decreases |a|
  {
    if |a| > 0 {
      assert (a + b)[0] == a[0];
      assert (a + b)[1..] == a[1..] + b;
      assert Printable(a[1..]) by {
        forall i | 0 <= i < |a| - 1 ensures a[1..][i] >= ' ' { assert a[1..][i] == a[i + 1]; }
      }
      PlainDecodes(a[1..], b);
      if DecodeJsonString(b).Some? {
        assert [a[0]] + (a[1..] + DecodeJsonString(b).value) == a + DecodeJsonString(b).value;
      }
    } else {
      assert a + b == b;
      if DecodeJsonString(b).Some? {
        assert a + DecodeJsonString(b).value == DecodeJsonString(b).value;
      }
    }
  }

  /** A double quote reached before any backslash ends the JSON string early, whatever follows. */
  lemma {:induction false} QuoteBreaksJson(a: string, b: string)
    requires '"' in a && '\\' !in a
    ensures DecodeJsonString(a + b) == None
    decreases |a|
  {
    assert (a + b)[0] == a[0];
    if a[0] != '"' && a[0] >= ' ' {
      assert '"' in a[1..];
      assert (a + b)[1..] == a[1..] + b;
      QuoteBreaksJson(a[1..], b);
    }
  }

  /**
   * The username is placed verbatim: a double quote in a username without
   * backslashes reaches the broadcast text and ends the JSON string early.
   */
  lemma UsernameNotEscaped(p: Packet, username: string, received: string, strip: string -> string)
    requires '"' in username && '\\' !in username
    ensures '"' in Read(p, username, received, strip).1
    ensures DecodeJsonString(Read(p, username, received, strip).1) == None
  {
    var rest := "> " + Escape(strip(received));
    assert Read(p, username, received, strip).1 == ("<" + username) + rest;
    QuoteBreaksJson("<" + username, rest);
  }

  /** The text before the message in the JSON chat object. */
  const PayloadHead := "{ \"text\": \""

  /** The text after the message in the JSON chat object. */
  const PayloadTail := "\" }"

  /** The JSON chat object `Write` sends: the message placed verbatim, without further escaping. */
  function Payload(message: string): (r: string)
    ensures ParsePayload(r) == Some(message)
    ensures |r| == |PayloadHead| + |message| + |PayloadTail|
  {
    PayloadHead + message + PayloadTail
  }

  /** Recover the message from a chat object of the shape `Write` produces. */
  function ParsePayload(s: string): Option<string>
  {
    if |s| >= |PayloadHead| + |PayloadTail| && s[..|PayloadHead|] == PayloadHead
       && s[|s| - |PayloadTail|..] == PayloadTail
    then Some(s[|PayloadHead|..|s| - |PayloadTail|])
    else None
  }

  /** Stripping the fixed head and tail gives the message back, and only payloads parse. */
  lemma PayloadRoundTrip(message: string, s: string)
    ensures ParsePayload(Payload(message)) == Some(message)
    ensures ParsePayload(s) == Some(message) ==> Payload(message) == s
  {
  }

  /** The fields `Write` puts in the buffer before flushing it. */
  datatype Field = VarInt(v: int) | Str(s: string) | Byte(b: int)

  /** `Write`: the send id as a varint, the JSON chat object as a string, then a 0 byte. */
  function Write(p: Packet): (fs: seq<Field>)
    ensures |fs| == 3
    ensures fs[0] == VarInt(p.sendId)
    ensures fs[1].Str? && ParsePayload(fs[1].s) == Some(p.message)
    ensures fs[2] == Byte(0)
  {
    PayloadRoundTrip(p.message, "");
    [VarInt(p.sendId), Str(Payload(p.message)), Byte(0)]
  }
}
