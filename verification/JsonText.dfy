/** Compact JSON text (RFC 8259) of the objects the write requests are made of, for any way of
    escaping characters, and its length in bytes. */
module JsonText {
  import opened Text

  // How an encoder writes one character of a string.
  type Escaper = char -> string

  // No character costs more than six bytes for each of its own: the price of \u00xx.
  ghost predicate SixFold(esc: Escaper) {
    forall c: char :: ByteLen(esc(c)) <= 6 * CharLen(c)
  }

  function Escape(esc: Escaper, s: string): string {
    if s == "" then "" else esc(s[0]) + Escape(esc, s[1..])
  }

  lemma {:induction false} EscapeBound(esc: Escaper, s: string)
    requires SixFold(esc)
    ensures ByteLen(Escape(esc, s)) <= 6 * ByteLen(s)
  {
    if s != "" {
      EscapeBound(esc, s[1..]);
      ByteLenConcat(esc(s[0]), Escape(esc, s[1..]));
    }
  }

  lemma {:induction false} EscapeConcat(esc: Escaper, a: string, b: string)
    ensures Escape(esc, a + b) == Escape(esc, a) + Escape(esc, b)
  {
    if a == "" {
      assert a + b == b;
    } else {
      assert (a + b)[1..] == a[1..] + b;
      EscapeConcat(esc, a[1..], b);
    }
  }

  lemma {:induction false} AsciiBytes(s: string)
    requires Ascii(s)
    ensures ByteLen(s) == |s|
  {
    if s != "" { AsciiBytes(s[1..]); }
  }

  lemma {:induction false} FourBytesEach(s: string)
    ensures ByteLen(s) <= 4 * |s|
  {
    if s != "" { FourBytesEach(s[1..]); }
  }

  // ----- Values

  function Quote(esc: Escaper, s: string): (r: string)
    ensures ByteLen(r) == ByteLen(Escape(esc, s)) + 2
  {
    ByteLenConcat("\"", Escape(esc, s) + "\"");
    ByteLenConcat(Escape(esc, s), "\"");
    "\"" + (Escape(esc, s) + "\"")
  }

  // The members of an object from the inside out: one member before the rest.
  function Member(key: string, value: string, rest: string): (r: string)
    ensures ByteLen(r) == ByteLen(key) + 3 + ByteLen(value) + if rest == "" then 0 else 1 + ByteLen(rest)
    ensures ByteLen(key) <= 4 * |key| && r != ""
  {
    var head := "\"" + (key + "\":");
    ByteLenConcat("\"", key + "\":");
    ByteLenConcat(key, "\":");
    FourBytesEach(key);
    ByteLenConcat(head, value);
    ByteLenConcat(head + value, "," + rest);
    ByteLenConcat(",", rest);
    if rest == "" then head + value else (head + value) + ("," + rest)
  }

  function TextMember(esc: Escaper, key: string, s: string, rest: string): (r: string)
    ensures ByteLen(r) == ByteLen(key) + 5 + ByteLen(Escape(esc, s)) + if rest == "" then 0 else 1 + ByteLen(rest)
    ensures ByteLen(key) <= 4 * |key| && r != ""
  {
    Member(key, Quote(esc, s), rest)
  }

  // omitempty
  function OptionalMember(esc: Escaper, key: string, s: string, rest: string): (r: string)
    ensures ByteLen(r) <= 4 * |key| + 6 + ByteLen(Escape(esc, s)) + ByteLen(rest)
  {
    if s == "" then rest else TextMember(esc, key, s, rest)
  }

  function Object(members: string): (r: string)
    ensures ByteLen(r) == ByteLen(members) + 2
  {
    ByteLenConcat("{", members + "}");
    ByteLenConcat(members, "}");
    "{" + (members + "}")
  }

  function Array(items: seq<string>): string { "[" + (Join(items, ',') + "]") }

  lemma {:induction false} JoinBound(items: seq<string>, limit: nat)
    requires forall i :: 0 <= i < |items| ==> ByteLen(items[i]) <= limit
    ensures ByteLen(Join(items, ',')) <= |items| * (limit + 1)
  {
    if |items| == 1 {
      assert |items| * (limit + 1) == limit + 1;
    } else if |items| > 1 {
      JoinBound(items[1..], limit);
      JoinBytes(items);
      OneMore(|items| - 1, limit + 1);
    }
  }

  lemma {:induction false} JoinBytes(items: seq<string>)
    requires |items| > 1
    ensures ByteLen(Join(items, ',')) == ByteLen(items[0]) + 1 + ByteLen(Join(items[1..], ','))
  {
    ByteLenConcat(items[0] + [','], Join(items[1..], ','));
    ByteLenConcat(items[0], [',']);
  }

  lemma OneMore(n: nat, k: nat)
    ensures (n + 1) * k == n * k + k
  {}

  // At most this many bytes for n items of at most so many bytes each.
  lemma ArrayBound(items: seq<string>, limit: nat)
    requires forall i :: 0 <= i < |items| ==> ByteLen(items[i]) <= limit
    ensures ByteLen(Array(items)) <= |items| * (limit + 1) + 2
  {
    JoinBound(items, limit);
    ByteLenConcat("[", Join(items, ',') + "]");
    ByteLenConcat(Join(items, ','), "]");
  }

  // ----- What Go writes

  function Hex(n: nat): char
    requires n < 16
  {
    if n < 10 then ('0' as int + n) as char else ('a' as int + n - 10) as char
  }

  function Unicode(n: nat): string
    requires n < 0x1_0000
  {
    ['\\', 'u', Hex(n / 4096), Hex(n / 256 % 16), Hex(n / 16 % 16), Hex(n % 16)]
  }

  // encoding/json with its HTML-safe default.
  function GoEscape(c: char): string {
    if c == '"' || c == '\\' then ['\\', c]
    else if c == '\n' then "\\n"
    else if c == '\r' then "\\r"
    else if c == '\t' then "\\t"
    else if c as int == 8 then "\\b"
    else if c as int == 12 then "\\f"
    else if c < ' ' || c == '<' || c == '>' || c == '&' || c as int == 0x2028 || c as int == 0x2029 then
      Unicode(c as int)
    else [c]
  }

  // The escaping of section 7 of RFC 8259 at its longest: every character as \uxxxx, those beyond
  // the basic plane as a pair.
  function EscapeAll(c: char): string {
    var n := c as int;
    if n < 0x1_0000 then Unicode(n)
    else Unicode(0xd800 + (n - 0x1_0000) / 1024) + Unicode(0xdc00 + (n - 0x1_0000) % 1024)
  }

  lemma GoEscapeIsSixFold()
    ensures SixFold(GoEscape)
  {
    forall c: char ensures ByteLen(GoEscape(c)) <= 6 * CharLen(c) {
      if Ascii(GoEscape(c)) {
        AsciiBytes(GoEscape(c));
      } else {
        assert GoEscape(c) == [c] && ByteLen(GoEscape(c)[1..]) == 0;
      }
    }
  }

  lemma EscapeAllIsSixFold()
    ensures SixFold(EscapeAll)
  {
    hide Unicode, ByteLen;
    forall c: char ensures ByteLen(EscapeAll(c)) <= 6 * CharLen(c) {
      var n := c as int;
      if n < 0x1_0000 {
        UnicodeBytes(n);
      } else {
        var high, low := 0xd800 + (n - 0x1_0000) / 1024, 0xdc00 + (n - 0x1_0000) % 1024;
        UnicodeBytes(high);
        UnicodeBytes(low);
        ByteLenConcat(Unicode(high), Unicode(low));
      }
    }
  }

  lemma UnicodeBytes(n: nat)
    requires n < 0x1_0000
    ensures ByteLen(Unicode(n)) == 6
  {
    AsciiBytes(Unicode(n));
  }
}
