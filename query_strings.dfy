/**
 * Python's `urllib.parse.parse_qs` with its defaults (blank values dropped,
 * lenient parsing, `&` as the only separator): the query is cut into fields,
 * each field into a name and a value at its first `=`, both are decoded, and
 * the values are grouped by name in the order the names were first seen.
 */
module QueryStrings {
  import opened Wrappers
  import opened Strings
  import opened OrderedMaps

  /** `qs.split('&') if qs else []`. */
  function Fields(qs: string): (r: seq<string>)
    ensures forall i :: 0 <= i < |r| ==> '&' !in r[i]
    ensures qs == "" <==> r == []
  {
    if qs == "" then [] else Split(qs, '&')
  }

  /** `s.replace('+', ' ')`. */
  function PlusToSpace(s: string): (r: string)
    ensures |r| == |s|
    ensures forall i :: 0 <= i < |s| ==> r[i] == if s[i] == '+' then ' ' else s[i]
  {
    seq(|s|, i requires 0 <= i < |s| => if s[i] == '+' then ' ' else s[i])
  }

  /** The character a `%hh` escape at the start of `s` stands for, when it is an ASCII one. */
  function AsciiEscape(s: string): (r: Option<char>)
    ensures r.Some? ==> |s| >= 3 && s[0] == '%' && r.value as int < 0x80
  {
    if |s| >= 3 && s[0] == '%' && IsHexDigit(s[1]) && IsHexDigit(s[2])
       && HexValue(s[1]) * 16 + HexValue(s[2]) < 0x80
    then Some((HexValue(s[1]) * 16 + HexValue(s[2])) as char)
    else None
  }

  /**
   * `urllib.parse.unquote`: every `%hh` escape of an ASCII character becomes
   * that character; any other `%` is kept as it is.
   */
  function Unquote(s: string): (r: string)
    ensures '%' !in s ==> r == s
    ensures |r| <= |s|
    ensures |s| > 0 ==> |r| > 0
    decreases |s|
  {
    if |s| == 0 then ""
    else match AsciiEscape(s)
      case Some(c) => [c] + Unquote(s[3..])
      case None => [s[0]] + Unquote(s[1..])
  }

  /** How a name or a value is decoded: `+` means space, then escapes are resolved. */
  function Decode(s: string): (r: string)
    ensures '%' !in s && '+' !in s ==> r == s
    ensures |r| <= |s|
  {
    Unquote(PlusToSpace(s))
  }

  /** One field: kept only when it has an `=` with a non-empty value after it. */
  function FieldPair(field: string): (r: seq<(string, string)>)
    ensures |r| <= 1
    ensures |r| == 1 ==> r[0].1 != ""
  {
    if field == "" then []
    else match IndexOf(field, '=')
      case None => []
      case Some(i) =>
        if i + 1 < |field| then [(Decode(field[..i]), Decode(field[i + 1..]))] else []
  }

  function Pairs(fields: seq<string>): (r: seq<(string, string)>)
    ensures |r| <= |fields|
    ensures forall i :: 0 <= i < |r| ==> r[i].1 != ""
  {
    if |fields| == 0 then [] else FieldPair(fields[0]) + Pairs(fields[1..])
  }

  /** `parse_qsl(qs)`: the decoded (name, value) pairs in query order. */
  function ParseQsl(qs: string): (r: seq<(string, string)>)
    ensures qs == "" ==> r == []
    ensures |r| <= |Fields(qs)|
    ensures forall i :: 0 <= i < |r| ==> r[i].1 != ""
  {
    Pairs(Fields(qs))
  }

  /** The values paired with `k`, in query order. */
  function ValuesFor(pairs: seq<(string, string)>, k: string): seq<string>
  {
    if |pairs| == 0 then []
    else
      var earlier := ValuesFor(pairs[..|pairs| - 1], k);
      if pairs[|pairs| - 1].0 == k then earlier + [pairs[|pairs| - 1].1] else earlier
  }

  /** The distinct elements of `xs` in order of first occurrence. */
  function FirstSeen(xs: seq<string>): (r: seq<string>)
    ensures forall x :: x in r <==> x in xs
    ensures forall i, j :: 0 <= i < j < |r| ==> r[i] != r[j]
  {
    if |xs| == 0 then []
    else
      var earlier := FirstSeen(xs[..|xs| - 1]);
      var x := xs[|xs| - 1];
      assert forall y :: y in xs <==> y in xs[..|xs| - 1] || y == x by {
        assert xs == xs[..|xs| - 1] + [x];
      }
      if x in earlier then earlier else earlier + [x]
  }

  /**
   * The grouping loop of `parse_qs`: a new name gets `[value]`, a name seen
   * before has the value appended to its list.
   */
  function Group(pairs: seq<(string, string)>): (r: Entries<seq<string>>)
    ensures UniqueKeys(r)
  {
    if |pairs| == 0 then []
    else
      var m := Group(pairs[..|pairs| - 1]);
      var (k, v) := pairs[|pairs| - 1];
      match Lookup(m, k)
      case Some(vs) => Put(m, k, vs + [v])
      case None => Put(m, k, [v])
  }

  /** The names of the grouped dictionary are the query's names, each once, in first-seen order. */
  lemma {:induction false} GroupKeys(pairs: seq<(string, string)>)
    ensures Keys(Group(pairs)) == FirstSeen(Keys(pairs))
  {
    if |pairs| > 0 {
      var prefix := pairs[..|pairs| - 1];
      GroupKeys(prefix);
      assert Keys(pairs)[..|pairs| - 1] == Keys(prefix);
    }
  }

  /** Each name holds all of its values in query order; a name never seen has no entry. */
  lemma {:induction false} GroupLookup(pairs: seq<(string, string)>, k: string)
    ensures Lookup(Group(pairs), k) == if ValuesFor(pairs, k) == [] then None else Some(ValuesFor(pairs, k))
  {
    if |pairs| > 0 {
      var prefix := pairs[..|pairs| - 1];
      var (k', v) := pairs[|pairs| - 1];
      var m := Group(prefix);
      GroupLookup(prefix, k);
      var vs := match Lookup(m, k') case Some(vs) => vs + [v] case None => [v];
      assert Group(pairs) == Put(m, k', vs);
      if k == k' {
        assert ValuesFor(pairs, k) == ValuesFor(prefix, k) + [v];
        assert vs == ValuesFor(prefix, k) + [v] by {
          if ValuesFor(prefix, k) == [] {
            assert [] + [v] == [v];
          }
        }
        assert Lookup(Group(pairs), k) == Some(vs);
      } else {
        assert ValuesFor(pairs, k) == ValuesFor(prefix, k);
        assert Lookup(Group(pairs), k) == Lookup(m, k);
      }
    }
  }

  /** `parse_qs(qs)`: each name, in first-seen order, with all its values in query order. */
  function ParseQs(qs: string): (r: Entries<seq<string>>)
    ensures UniqueKeys(r)
    ensures Keys(r) == FirstSeen(Keys(ParseQsl(qs)))
    ensures forall i :: 0 <= i < |r| ==> r[i].1 == ValuesFor(ParseQsl(qs), r[i].0) && |r[i].1| >= 1
  {
    var pairs := ParseQsl(qs);
    var r := Group(pairs);
    GroupKeys(pairs);
    forall i | 0 <= i < |r| ensures r[i].1 == ValuesFor(pairs, r[i].0) && |r[i].1| >= 1 {
      LookupAt(r, i);
      GroupLookup(pairs, r[i].0);
    }
    r
  }

  // ----- The encoder that `parse_qs` inverts -----

  const Reserved: set<char> := {'%', '&', '=', '+'}

  function HexChar(n: nat): (c: char)
    requires n < 16
    ensures IsHexDigit(c) && HexValue(c) == n
  {
    if n < 10 then ('0' as int + n) as char else ('A' as int + n - 10) as char
  }

  /** `quote` restricted to the characters that would change how a query is read. */
  function Quote(s: string): (r: string)
    ensures forall c :: c in r && c in Reserved ==> c == '%'
  {
    if |s| == 0 then ""
    else
      var c := s[0];
      var head := if c in Reserved then ['%', HexChar(c as int / 16), HexChar(c as int % 16)] else [c];
      head + Quote(s[1..])
  }

  /** Decoding a quoted string gives the string back. */
  lemma {:induction false} DecodeQuote(s: string)
    ensures Decode(Quote(s)) == s
  {
    QuoteHasNoPlus(s);
    assert PlusToSpace(Quote(s)) == Quote(s);
    UnquoteQuote(s);
  }

  lemma QuoteHasNoPlus(s: string)
    ensures '+' !in Quote(s)
  {
  }

  lemma {:induction false} UnquoteQuote(s: string)
    ensures Unquote(Quote(s)) == s
  {
    if |s| > 0 {
      var t := s[1..];
      QuoteStep(s);
      UnquoteQuote(t);
      assert [s[0]] + t == s;
    }
  }

  /** Decoding the quoted form of the first character gives that character back. */
  lemma QuoteStep(s: string)
    requires |s| > 0
    ensures Unquote(Quote(s)) == [s[0]] + Unquote(Quote(s[1..]))
  {
    var c := s[0];
    var q := Quote(s);
    if c in Reserved {
      var head := ['%', HexChar(c as int / 16), HexChar(c as int % 16)];
      assert q == head + Quote(s[1..]);
      ReservedIsAscii(c);
      UnquoteEscape(c, Quote(s[1..]));
      assert q[3..] == Quote(s[1..]);
    } else {
      assert q == [c] + Quote(s[1..]);
      assert q[0] != '%';
      assert q[1..] == Quote(s[1..]);
    }
  }

  lemma ReservedIsAscii(c: char)
    requires c in Reserved
    ensures c as int < 0x80
  {
    assert c == '%' || c == '&' || c == '=' || c == '+';
  }

  /**
   * A `%hh` escape, in either case, of a character below 0x80 decodes to
   * that character, and decoding carries on right after the escape.
   */
  lemma UnquoteAsciiEscape(h1: char, h2: char, t: string)
    requires IsHexDigit(h1) && IsHexDigit(h2) && HexValue(h1) * 16 + HexValue(h2) < 0x80
    ensures Unquote(['%', h1, h2] + t) == [(HexValue(h1) * 16 + HexValue(h2)) as char] + Unquote(t)
  {
    assert (['%', h1, h2] + t)[3..] == t;
  }

  /** Every ASCII character survives being written as an upper-case `%hh` escape and decoded. */
  lemma UnquoteEscape(c: char, t: string)
    requires c as int < 0x80
    ensures Unquote(['%', HexChar(c as int / 16), HexChar(c as int % 16)] + t) == [c] + Unquote(t)
  {
    var hi, lo := c as int / 16, c as int % 16;
    assert hi * 16 + lo == c as int;
    UnquoteAsciiEscape(HexChar(hi), HexChar(lo), t);
  }

  /**
   * An escape of a byte from 0x80 up is not decoded: its `%` is kept as text
   * and decoding carries on with the two hex digits.
   */
  lemma UnquoteKeepsHighEscape(h1: char, h2: char, t: string)
    requires IsHexDigit(h1) && IsHexDigit(h2) && HexValue(h1) >= 8
    ensures Unquote(['%', h1, h2] + t) == ['%'] + Unquote([h1, h2] + t)
  {
    assert (['%', h1, h2] + t)[1..] == [h1, h2] + t;
  }

  /** The minimal encoder the round trip uses: quoted `name=value` fields joined with `&`. */
  function EncodeQuery(pairs: seq<(string, string)>): string
  {
    Join(EncodeFields(pairs), "&")
  }

  /** The encoded fields, one per pair. */
  function EncodeFields(pairs: seq<(string, string)>): (fields: seq<string>)
    ensures |fields| == |pairs|
    ensures forall i :: 0 <= i < |pairs| ==> fields[i] == EncodeField(pairs[i])
  {
    if |pairs| == 0 then [] else [EncodeField(pairs[0])] + EncodeFields(pairs[1..])
  }

  function EncodeField(p: (string, string)): string
  {
    Quote(p.0) + "=" + Quote(p.1)
  }

  lemma FieldPairEncode(p: (string, string))
    requires p.1 != ""
    ensures FieldPair(EncodeField(p)) == [p]
  {
    var f := EncodeField(p);
    var k, v := Quote(p.0), Quote(p.1);
    assert f == k + ("=" + v);
    assert forall j :: 0 <= j < |k| ==> k[j] !in {'='};
    IndexOfAnyAfter(k, "=" + v, {'='});
    assert f[..|k|] == k;
    assert f[|k| + 1..] == v;
    DecodeQuote(p.0);
    DecodeQuote(p.1);
    assert |v| > 0 by {
      assert |Decode(v)| > 0;
    }
  }

  lemma {:induction false} PairsEncode(pairs: seq<(string, string)>)
    requires forall i :: 0 <= i < |pairs| ==> pairs[i].1 != ""
    ensures Pairs(EncodeFields(pairs)) == pairs
  {
    var fields := EncodeFields(pairs);
    if |pairs| > 0 {
      FieldPairEncode(pairs[0]);
      assert fields[1..] == EncodeFields(pairs[1..]);
      PairsEncode(pairs[1..]);
      assert pairs == [pairs[0]] + pairs[1..];
    }
  }

  /** Every list of pairs with non-empty values is read back from its encoding. */
  lemma ParseQslEncode(pairs: seq<(string, string)>)
    requires forall i :: 0 <= i < |pairs| ==> pairs[i].1 != ""
    ensures ParseQsl(EncodeQuery(pairs)) == pairs
  {
    var fields := EncodeFields(pairs);
    if |pairs| > 0 {
      forall i | 0 <= i < |fields| ensures '&' !in fields[i] {
        assert fields[i] == Quote(pairs[i].0) + "=" + Quote(pairs[i].1);
      }
      SplitJoin(fields, '&');
      assert EncodeQuery(pairs) != "" by {
        assert '=' in fields[0];
        if |fields| > 1 {
          assert EncodeQuery(pairs) == fields[0] + "&" + Join(fields[1..], "&");
        }
      }
    }
    PairsEncode(pairs);
  }
}
