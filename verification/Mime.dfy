/** MIME types (sections 4.4 and 4.5 of the WHATWG MIME Sniffing Standard): parsed from text and printed again. */
module MimeType {
  import opened Headers

  /** A type with its parameters, in order. */
  datatype Mime = Mime(basetype: string, subtype: string, params: seq<(string, string)>)

  // ----- characters

  predicate IsToken(c: char) {
    || c == '!' || c == '#' || c == '$' || c == '%' || c == '&' || c == '\'' || c == '*' || c == '+' || c == '-'
    || c == '.'
    || c == '^' || c == '_' || c == '`' || c == '|' || c == '~'
    || 'a' <= c <= 'z' || 'A' <= c <= 'Z' || '0' <= c <= '9'
  }

  predicate IsQuotedStringToken(c: char) {
    c == '\t' || ' ' <= c <= '~' || (0x80 <= c as int <= 0xff)
  }

  predicate IsSpace(c: char) {
    c == '\n' || c == '\r' || c == '\t' || c == ' '
  }

  predicate AllTokens(s: string) {
    forall i :: 0 <= i < |s| ==> IsToken(s[i])
  }

  predicate AllQuotedStringTokens(s: string) {
    forall i :: 0 <= i < |s| ==> IsQuotedStringToken(s[i])
  }

  function LowerChar(c: char): char {
    if 'A' <= c <= 'Z' then (c as int + 32) as char else c
  }

  function Lower(s: string): (r: string)
    ensures |r| == |s| && forall i :: 0 <= i < |s| ==> r[i] == LowerChar(s[i])
  {
    if s == "" then "" else Lower(s[..|s| - 1]) + [LowerChar(s[|s| - 1])]
  }

  predicate IsLower(s: string) {
    forall i :: 0 <= i < |s| ==> !('A' <= s[i] <= 'Z')
  }

  function TrimStart(s: string): (r: string)
    ensures |r| <= |s| && (r != "" ==> !IsSpace(r[0]))
    ensures s == "" || !IsSpace(s[0]) ==> r == s
  {
    if s != "" && IsSpace(s[0]) then TrimStart(s[1..]) else s
  }

  function TrimEnd(s: string): (r: string)
    ensures |r| <= |s| && r <= s && (r != "" ==> !IsSpace(r[|r| - 1]))
    ensures s == "" || !IsSpace(s[|s| - 1]) ==> r == s
  {
    if s != "" && IsSpace(s[|s| - 1]) then TrimEnd(s[..|s| - 1]) else s
  }

  /** How far `s` reaches before the first of the delimiters. */
  function Until(s: string, delimiters: set<char>): (n: nat)
    ensures n <= |s| && (n < |s| ==> s[n] in delimiters)
    ensures forall i :: 0 <= i < n ==> s[i] !in delimiters
  {
    if s == "" || s[0] in delimiters then 0
    else
      var n := Until(s[1..], delimiters);
      assert forall i :: 0 < i < n + 1 ==> s[i] == s[1..][i - 1];
      n + 1
  }

  /** Up to the first delimiter: everything in `a`, if none is in there and `b` begins with one. */
  lemma {:induction false} UntilPlain(a: string, b: string, delimiters: set<char>)
    requires (forall i :: 0 <= i < |a| ==> a[i] !in delimiters) && (b == "" || b[0] in delimiters)
    ensures Until(a + b, delimiters) == |a| && (a + b)[..|a|] == a && (a + b)[|a|..] == b
  {
    if a == "" {
      assert a + b == b;
    } else {
      assert (a + b)[1..] == a[1..] + b;
      UntilPlain(a[1..], b, delimiters);
    }
  }

  // ----- quoted strings

  /** The contents of a quoted string, and what is to be read next; the opening quote has been taken off. Without a
      closing quote that is all the text since the last escape, once more. */
  function Unquote(s: string): (r: (string, string))
    ensures |r.1| <= |s|
    decreases |s|, 1
  {
    var n := Until(s, {'"', '\\'});
    if n == |s| then (s, s)
    else
      var (more, after) := AtDelimiter(s[n..]);
      (s[..n] + more, after)
  }

  /** The same from a quote or backslash on. */
  function AtDelimiter(rest: string): (r: (string, string))
    requires rest != ""
    ensures |r.1| < |rest|
    decreases |rest|, 0
  {
    if rest[0] == '"' then ("", rest[1..])
    else if |rest| == 1 then ("\\", "")
    else
      var (more, after) := Unquote(rest[2..]);
      ([rest[1]] + more, after)
  }

  lemma UnquoteSplit(s: string)
    ensures var n := Until(s, {'"', '\\'});
      Unquote(s) == if n == |s| then (s, s) else (s[..n] + AtDelimiter(s[n..]).0, AtDelimiter(s[n..]).1)
  {
  }

  lemma AtDelimiterIs(rest: string)
    requires rest != ""
    ensures AtDelimiter(rest) ==
      if rest[0] == '"' then ("", rest[1..])
      else if |rest| == 1 then ("\\", "")
      else ([rest[1]] + Unquote(rest[2..]).0, Unquote(rest[2..]).1)
  {
  }

  lemma Plus(a: string, b: string, c: string)
    ensures (a + b) + c == a + (b + c) && a + "" == a == "" + a
  {
  }

  /** Reads a quoted string, the opening quote included. */
  method CollectQuotedString(s: string) returns (value: string, rest: string)
    requires s != ""
    ensures (value, rest) == Unquote(s[1..])
  {
    hide Until, Unquote, AtDelimiter;
    value, rest := "", s[1..];
    ghost var whole := Unquote(s[1..]);
    Plus(whole.0, "", "");
    while true
      invariant whole == (value + Unquote(rest).0, Unquote(rest).1)
      decreases |rest|
    {
      var n := Until(rest, {'"', '\\'});
      UnquoteSplit(rest);
      var before, after := rest[..n], rest[n..];
      if after == "" {
        assert before == rest;
        value := value + before;
        return;
      }
      Plus(value, before, AtDelimiter(after).0);
      value := value + before;
      AtDelimiterIs(after);
      Plus(value, "", "");
      rest := after[1..];
      if after[0] == '\\' {
        if rest == "" {
          value := value + "\\";
          return;
        }
        Plus(value, [rest[0]], Unquote(rest[1..]).0);
        value := value + [rest[0]];
        rest := rest[1..];
      } else {
        return;
      }
    }
  }

  /** A quoted string as the standard has it: without a closing quote it reaches to the end. */
  function QuotedString(s: string): (string, string)
    decreases |s|
  {
    var n := Until(s, {'"', '\\'});
    if n == |s| then (s, "")
    else if s[n] == '"' then (s[..n], s[n + 1..])
    else if n + 1 == |s| then (s[..n] + "\\", "")
    else
      var (more, after) := QuotedString(s[n + 2..]);
      (s[..n] + ([s[n + 1]] + more), after)
  }

  /** What follows the last escape of a quoted string that is never closed. */
  function OpenEnd(s: string): Option<string>
    decreases |s|
  {
    var n := Until(s, {'"', '\\'});
    if n == |s| then Some(s)
    else if s[n] == '"' then None
    else if n + 1 == |s| then Some("")
    else OpenEnd(s[n + 2..])
  }

  /** The contents are those of the standard; what is to be read next is not, just if the string is never closed and
      does not end with an escape. */
  lemma {:induction false} UnquoteIs(s: string)
    ensures Unquote(s).0 == QuotedString(s).0
    ensures OpenEnd(s).Some? ==> QuotedString(s).1 == "" && Unquote(s).1 == OpenEnd(s).value
    ensures OpenEnd(s).None? ==> Unquote(s).1 == QuotedString(s).1
    decreases |s|
  {
    hide Until;
    var n := Until(s, {'"', '\\'});
    UnquoteSplit(s);
    if n < |s| {
      AtDelimiterIs(s[n..]);
      assert s[n..][1..] == s[n + 1..];
      if s[n] != '"' && n + 1 < |s| {
        assert s[n..][2..] == s[n + 2..];
        UnquoteIs(s[n + 2..]);
      } else {
        Plus(s[..n], "", "");
      }
    }
  }

  function EscapeChar(c: char): string {
    if c == '"' || c == '\\' then ['\\', c] else [c]
  }

  function Escape(s: string): string {
    if s == "" then "" else Escape(s[..|s| - 1]) + EscapeChar(s[|s| - 1])
  }

  lemma {:induction false} EscapeCons(c: char, s: string)
    ensures Escape([c] + s) == EscapeChar(c) + Escape(s)
  {
    hide EscapeChar;
    var t := [c] + s;
    var front := t[..|t| - 1];
    assert Escape(t) == Escape(front) + EscapeChar(t[|t| - 1]);
    if s == "" {
      assert front == "" && t[0] == c;
      assert Escape(front) == Escape(s) == "";
    } else {
      assert front == [c] + s[..|s| - 1];
      EscapeCons(c, s[..|s| - 1]);
    }
  }

  /** An ordinary character is taken as it is, and read again if no quote or backslash follows at all. */
  lemma UnquotePlain(c: char, s: string)
    requires c != '"' && c != '\\'
    ensures Unquote([c] + s) == ([c] + Unquote(s).0, if Until(s, {'"', '\\'}) == |s| then [c] + s else Unquote(s).1)
  {
    hide AtDelimiter, Unquote, Until;
    var n, t := Until(s, {'"', '\\'}), [c] + s;
    UntilCons(c, s, {'"', '\\'});
    UnquoteSplit(s);
    UnquoteSplit(t);
    if n < |s| {
      SliceCons(c, s, n);
      var more := AtDelimiter(s[n..]).0;
      Plus([c], s[..n], more);
      assert Unquote(t).0 == t[..n + 1] + more;
    }
  }

  lemma SliceCons(c: char, s: string, n: nat)
    requires n <= |s|
    ensures ([c] + s)[..n + 1] == [c] + s[..n] && ([c] + s)[n + 1..] == s[n..]
  {
  }

  lemma UntilCons(c: char, s: string, delimiters: set<char>)
    requires c !in delimiters
    ensures Until([c] + s, delimiters) == Until(s, delimiters) + 1
  {
    assert ([c] + s)[1..] == s;
  }

  lemma UnquoteBackslash(c: char, s: string)
    ensures Unquote(['\\', c] + s) == ([c] + Unquote(s).0, Unquote(s).1)
  {
    hide Unquote, AtDelimiter;
    var t := ['\\', c] + s;
    UnquoteSplit(t);
    AtDelimiterIs(t);
    assert t[0] == '\\' && t[1] == c && t[2..] == s;
    assert Until(t, {'"', '\\'}) == 0;
    assert t[..0] == "" && t[0..] == t;
    Plus([c] + Unquote(s).0, "", "");
  }

  /** Escaping, closing the quote and reading it back yields the string, and stops right behind the quote. */
  lemma {:induction false} UnquoteOfEscaped(v: string, rest: string)
    ensures Unquote(Escape(v) + ("\"" + rest)) == (v, rest)
    decreases |v|
  {
    hide Unquote, Escape;
    if v == "" {
      EscapeNothing();
      UnquoteEnd(rest);
      assert "" + ("\"" + rest) == "\"" + rest;
    } else {
      var c, tail := v[0], v[1..];
      assert v == [c] + tail;
      EscapeCons(c, tail);
      var more := Escape(tail) + ("\"" + rest);
      assert Escape(v) + ("\"" + rest) == EscapeChar(c) + more;
      UnquoteOfEscaped(tail, rest);
      if c == '"' || c == '\\' {
        UnquoteBackslash(c, more);
      } else {
        assert more[|Escape(tail)|] == '"';
        UnquotePlain(c, more);
      }
    }
  }

  lemma EscapeNothing()
    ensures Escape("") == ""
  {
  }

  lemma UnquoteEnd(rest: string)
    ensures Unquote("\"" + rest) == ("", rest)
  {
    hide Unquote, AtDelimiter;
    var s := "\"" + rest;
    UnquoteSplit(s);
    AtDelimiterIs(s);
    assert Until(s, {'"', '\\'}) == 0;
    assert s[..0] == "" && s[0..] == s && s[1..] == rest;
    var nothing: string := "";
    assert s[..0] + nothing == nothing;
  }

  // ----- parsing

  /** A parameter is taken in if it is sound and its name is new: the first value of a name stands. */
  function Taken(params: seq<(string, string)>, name: string, value: string): (r: seq<(string, string)>)
    ensures params <= r && (HasName(params, name) ==> r == params)
  {
    if name != "" && AllTokens(name) && AllQuotedStringTokens(value) && !HasName(params, name) then
      params + [(name, value)] else params
  }

  predicate HasName(params: seq<(string, string)>, name: string) {
    exists i :: 0 <= i < |params| && params[i].0 == name
  }

  /** The value at the front of `s`, quoted or not, and what follows it. */
  function Value(s: string): (r: (Option<string>, string))
    ensures |r.1| <= |s| && (r.1 == "" || r.1[0] == ';')
  {
    if s != "" && s[0] == '"' then
      var (value, after) := Unquote(s[1..]);
      (Some(value), after[Until(after, {';'})..])
    else
      var k := Until(s, {';'});
      var value := TrimEnd(s[..k]);
      (if value == "" then None else Some(value), s[k..])
  }

  /** The parameter behind the semicolon at the front of `s`, if there is one, and what follows. */
  function Step(s: string): (r: (Option<(string, string)>, string))
    requires s != "" && s[0] == ';'
    ensures |r.1| < |s| && (r.1 == "" || r.1[0] == ';')
    ensures r.0.Some? ==> IsLower(r.0.value.0)
  {
    var s1 := TrimStart(s[1..]);
    var n := Until(s1, {';', '='});
    var name, rest := Lower(s1[..n]), s1[n..];
    if rest == "" then (None, "")
    else if rest[0] == ';' then (None, rest)
    else
      var (value, after) := Value(rest[1..]);
      (if value.Some? then Some((name, value.value)) else None, after)
  }

  /** The parameters in `s`, which is empty or begins with a semicolon, added to those there are. */
  function Params(s: string, params: seq<(string, string)>): seq<(string, string)>
    requires s == "" || s[0] == ';'
    decreases |s|
  {
    if s == "" then params
    else
      var (p, rest) := Step(s);
      Params(rest, if p.Some? then Taken(params, p.value.0, p.value.1) else params)
  }

  function Trim(s: string): string {
    TrimEnd(TrimStart(s))
  }

  function ParseMime(s: string): Option<Mime> {
    var input := Trim(s);
    var n := Until(input, {'/'});
    var basetype, rest := input[..n], input[n..];
    if basetype == "" || !AllTokens(basetype) || rest == "" then None
    else
      var rest1 := rest[1..];
      var k := Until(rest1, {';'});
      var subtype := TrimEnd(rest1[..k]);
      if subtype == "" || !AllTokens(subtype) then None
      else Some(Mime(Lower(basetype), Lower(subtype), Params(rest1[k..], [])))
  }

  /** The parser of the source. */
  method Parse(s: string) returns (r: Option<Mime>)
    ensures r == ParseMime(s)
  {
    var input := Trim(s);
    var n := Until(input, {'/'});
    var basetype := input[..n];
    input := input[n..];
    if basetype == "" || !AllTokens(basetype) || input == "" {
      return None;
    }
    input := input[1..];
    n := Until(input, {';'});
    var subtype := TrimEnd(input[..n]);
    input := input[n..];
    if subtype == "" || !AllTokens(subtype) {
      return None;
    }
    var params := ParseParams(input);
    return Some(Mime(Lower(basetype), Lower(subtype), params));
  }

  method ParseParams(s: string) returns (params: seq<(string, string)>)
    requires s == "" || s[0] == ';'
    ensures params == Params(s, [])
  {
    hide TrimStart, TrimEnd, Until, Lower, Unquote, Taken, IsLower;
    params := [];
    var input := s;
    while input != ""
      invariant (input == "" || input[0] == ';') && Params(input, params) == Params(s, [])
      decreases |input|
    {
      ghost var before := input;
      input := input[1..];
      input := TrimStart(input);
      var n := Until(input, {';', '='});
      var name := Lower(input[..n]);
      input := input[n..];
      if input == "" {
        break;
      }
      if input[0] == ';' {
        continue;
      }
      input := input[1..];
      var value;
      if input != "" && input[0] == '"' {
        value, input := CollectQuotedString(input);
        input := input[Until(input, {';'})..];
      } else {
        n := Until(input, {';'});
        value := TrimEnd(input[..n]);
        input := input[n..];
        if value == "" {
          continue;
        }
      }
      params := Taken(params, name, value);
    }
  }

  // ----- printing

  function ParamText(p: (string, string)): string {
    if p.1 != "" && AllTokens(p.1) then ";" + p.0 + "=" + p.1
    else ";" + p.0 + "=\"" + Escape(p.1) + "\""
  }

  function ParamsText(params: seq<(string, string)>): string {
    if params == [] then "" else ParamText(params[0]) + ParamsText(params[1..])
  }

  function Text(m: Mime): string {
    m.basetype + "/" + m.subtype + ParamsText(m.params)
  }

  /** A value is quoted if it is empty or not a token, and a quote in it is escaped. */
  lemma PrintedExamples()
    ensures ParamText(("c", "d")) == ";c=d" && ParamText(("e", "")) == ";e=\"\""
    ensures ParamText(("f", " ")) == ";f=\" \"" && ParamText(("g", "\"")) == ";g=\"\\\"\""
  {
    hide Escape;
    EscapeOne(' ');
    EscapeOne('"');
    EscapeNothing();
    assert !IsToken(" "[0]) && !IsToken("\""[0]);
    assert !AllTokens(" ") && !AllTokens("\"");
  }

  lemma EscapeOne(c: char)
    ensures Escape([c]) == EscapeChar(c)
  {
    assert [c][..0] == "";
  }

  datatype EscapeState = Done | Char(c: char) | Backslash(c: char)

  /** Yields a character, with a backslash before it where it needs one. */
  class EscapeMimeValue {
    var state: EscapeState

    /** What is still to come. */
    ghost function Left(): string
      reads this
    {
      match state
      case Done => ""
      case Char(c) => [c]
      case Backslash(c) => ['\\', c]
    }

    constructor (c: char)
      ensures Left() == EscapeChar(c)
    {
      state := if c == '"' || c == '\\' then Backslash(c) else Char(c);
    }

    method Next() returns (r: Option<char>)
      modifies this
      ensures r.None? ==> old(Left()) == Left() == ""
      ensures r.Some? ==> old(Left()) == [r.value] + Left()
    {
      match state
      case Done => return None;
      case Char(c) =>
        state := Done;
        return Some(c);
      case Backslash(c) =>
        state := Char(c);
        return Some('\\');
    }
  }

  method EscapeValue(v: string) returns (s: string)
    ensures s == Escape(v)
  {
    s := "";
    for i := 0 to |v|
      invariant s == Escape(v[..i])
    {
      assert v[..i + 1][..i] == v[..i];
      var chars := new EscapeMimeValue(v[i]);
      ghost var before := s;
      Plus(before, chars.Left(), "");
      var c := chars.Next();
      while c.Some?
        invariant before + EscapeChar(v[i]) == s + (if c.Some? then [c.value] else "") + chars.Left()
        invariant c.None? ==> chars.Left() == ""
        invariant fresh(chars)
        decreases |chars.Left()|, if c.Some? then 1 else 0
        modifies chars
      {
        s := s + [c.value];
        Plus(s, "", chars.Left());
        ghost var left := chars.Left();
        c := chars.Next();
        if c.Some? {
          Plus(s, [c.value], chars.Left());
        } else {
          Plus(s, "", "");
        }
      }
      Plus(s, "", "");
    }
    assert v[..|v|] == v;
  }

  /** The printer of the source. */
  method Format(m: Mime) returns (s: string)
    ensures s == Text(m)
  {
    hide Escape, AllTokens;
    s := m.basetype + "/" + m.subtype;
    assert m.params[0..] == m.params;
    for i := 0 to |m.params|
      invariant s + ParamsText(m.params[i..]) == Text(m)
    {
      var (name, value) := m.params[i];
      var before := s;
      if AllTokens(value) && value != "" {
        s := s + (";" + name + "=" + value);
      } else {
        var escaped := EscapeValue(value);
        s := s + (";" + name + "=\"" + escaped + "\"");
      }
      assert m.params[i..][0] == m.params[i] && m.params[i..][1..] == m.params[i + 1..];
      Plus(before, ParamText(m.params[i]), ParamsText(m.params[i + 1..]));
    }
    Plus(s, "", "");
  }

  // ----- round trip

  /** What parsing produces: lower-case tokens for the type, distinct lower-case tokens for the names. */
  predicate WellFormed(m: Mime) {
    && m.basetype != "" && AllTokens(m.basetype) && IsLower(m.basetype)
    && m.subtype != "" && AllTokens(m.subtype) && IsLower(m.subtype)
    && ParamsOk(m.params)
  }

  predicate ParamOk(p: (string, string)) {
    p.0 != "" && AllTokens(p.0) && IsLower(p.0) && AllQuotedStringTokens(p.1)
  }

  predicate ParamsOk(params: seq<(string, string)>) {
    && (forall i :: 0 <= i < |params| ==> ParamOk(params[i]))
    && (forall i, j :: 0 <= i < j < |params| ==> params[i].0 != params[j].0)
  }

  lemma LowerIsLower(s: string)
    ensures IsLower(Lower(s)) && (AllTokens(s) ==> AllTokens(Lower(s)))
  {
  }

  lemma LowerOfLower(s: string)
    requires IsLower(s)
    ensures Lower(s) == s
  {
  }

  lemma TakenOk(params: seq<(string, string)>, name: string, value: string)
    requires ParamsOk(params) && IsLower(name)
    ensures ParamsOk(Taken(params, name, value))
  {
  }

  lemma {:induction false} ParamsAreOk(s: string, params: seq<(string, string)>)
    requires (s == "" || s[0] == ';') && ParamsOk(params)
    ensures ParamsOk(Params(s, params))
    decreases |s|
  {
    hide ParamsOk, Taken, Step, IsLower;
    if s != "" {
      var (p, rest) := Step(s);
      if p.Some? {
        TakenOk(params, p.value.0, p.value.1);
      }
      ParamsAreOk(rest, if p.Some? then Taken(params, p.value.0, p.value.1) else params);
    }
  }

  /** Whatever is accepted has distinct lower-case names. */
  lemma ParsedIsWellFormed(s: string)
    ensures ParseMime(s).Some? ==> WellFormed(ParseMime(s).value)
  {
    hide Params, Lower, TrimStart, TrimEnd, Until, IsLower, ParamsOk, AllTokens;
    var input := Trim(s);
    var n := Until(input, {'/'});
    var basetype, rest := input[..n], input[n..];
    if !(basetype == "" || !AllTokens(basetype) || rest == "") {
      var rest1 := rest[1..];
      var k := Until(rest1, {';'});
      LowerIsLower(basetype);
      LowerIsLower(TrimEnd(rest1[..k]));
      NoParams();
      ParamsAreOk(rest1[k..], []);
    }
  }

  lemma NoParams()
    ensures ParamsOk([])
  {
  }

  lemma TextStart(params: seq<(string, string)>)
    ensures ParamsText(params) == "" <==> params == []
    ensures params != [] ==> ParamsText(params)[0] == ';'
  {
  }

  lemma PlainValue(v: string, rest: string)
    requires v != "" && AllTokens(v) && (rest == "" || rest[0] == ';')
    ensures Value(v + rest) == (Some(v), rest)
  {
    hide Unquote, Until, TrimEnd, AllTokens;
    NoDelimiters(v);
    UntilPlain(v, rest, {';'});
    TrimEndNothing(v);
  }

  lemma QuotedValue(v: string, rest: string)
    requires rest == "" || rest[0] == ';'
    ensures Value("\"" + Escape(v) + "\"" + rest) == (Some(v), rest)
  {
    hide Unquote, Escape, Until, TrimEnd;
    var s := "\"" + Escape(v) + "\"" + rest;
    assert s[1..] == Escape(v) + ("\"" + rest);
    UnquoteOfEscaped(v, rest);
    UntilPlain("", rest, {';'});
    assert "" + rest == rest && rest[0..] == rest;
  }

  lemma NamedValue(name: string, s: string)
    requires name != "" && AllTokens(name) && IsLower(name)
    ensures Step(";" + (name + ("=" + s))) ==
      (if Value(s).0.Some? then Some((name, Value(s).0.value)) else None, Value(s).1)
  {
    hide Value, Until, Lower, AllTokens, IsLower;
    var s1 := name + ("=" + s);
    NoDelimiters(name);
    UntilPlain(name, "=" + s, {';', '='});
    LowerOfLower(name);
    assert s1[0] == name[0];
    assert (";" + s1)[1..] == s1 && ("=" + s)[1..] == s;
  }

  /** A printed parameter is read back, and what follows is left. */
  lemma ParamRead(p: (string, string), rest: string)
    requires ParamOk(p) && (rest == "" || rest[0] == ';')
    ensures Step(ParamText(p) + rest) == (Some(p), rest)
  {
    hide Value, Escape, Step, AllTokens, AllQuotedStringTokens, IsLower;
    if p.1 != "" && AllTokens(p.1) {
      PlainValue(p.1, rest);
      NamedValue(p.0, p.1 + rest);
      Regroup(p.0, "=", p.1, "", rest);
    } else {
      QuotedValue(p.1, rest);
      NamedValue(p.0, "\"" + Escape(p.1) + "\"" + rest);
      Regroup(p.0, "=\"", Escape(p.1), "\"", rest);
      RegroupQuoted(p.0, Escape(p.1), rest);
    }
  }

  lemma Regroup(name: string, before: string, v: string, after: string, rest: string)
    ensures ";" + name + before + v + after + rest == ";" + (name + (before + (v + (after + rest))))
    ensures after == "" ==> ";" + name + before + v + rest == ";" + (name + (before + (v + rest)))
  {
  }

  lemma RegroupQuoted(name: string, v: string, rest: string)
    ensures name + ("=\"" + (v + ("\"" + rest))) == name + ("=" + ("\"" + v + "\"" + rest))
  {
  }

  lemma TrimEndNothing(s: string)
    requires s != "" && !IsSpace(s[|s| - 1])
    ensures TrimEnd(s) == s
  {
  }

  lemma NoDelimiters(s: string)
    requires AllTokens(s)
    ensures forall i :: 0 <= i < |s| ==> s[i] != ';' && s[i] != '=' && s[i] != '"' && s[i] != '/' && !IsSpace(s[i])
    ensures forall i :: 0 <= i < |s| ==> s[i] !in {';', '='} && s[i] !in {';'} && s[i] !in {'/'}
  {
  }

  lemma TakenNew(params: seq<(string, string)>, p: (string, string))
    requires ParamOk(p) && forall i :: 0 <= i < |params| ==> params[i].0 != p.0
    ensures Taken(params, p.0, p.1) == params + [p]
  {
  }

  lemma {:induction false} ParamsRead(params: seq<(string, string)>, got: seq<(string, string)>)
    requires ParamsOk(got + params)
    ensures ParamsText(params) == "" || ParamsText(params)[0] == ';'
    ensures Params(ParamsText(params), got) == got + params
    decreases |params|
  {
    hide Params, Step, Taken, ParamText;
    TextStart(params);
    if params == [] {
      assert got + params == got;
      EmptyParams(got);
    } else {
      var p := params[0];
      assert (got + params)[|got|] == p;
      forall i | 0 <= i < |got| ensures got[i].0 != p.0 {
        assert (got + params)[i] == got[i];
      }
      assert got + [p] + params[1..] == got + params;
      ParamsRead(params[1..], got + [p]);
      ParamRead(p, ParamsText(params[1..]));
      TakenNew(got, p);
      ParamsStep(ParamsText(params), got);
    }
  }

  lemma ParamsStep(s: string, got: seq<(string, string)>)
    requires s != "" && s[0] == ';'
    ensures var (p, rest) := Step(s);
      Params(s, got) == Params(rest, if p.Some? then Taken(got, p.value.0, p.value.1) else got)
  {
    hide Step, Taken;
  }

  lemma EmptyParams(got: seq<(string, string)>)
    ensures Params("", got) == got
  {
  }

  /** Printing is undone by parsing. */
  lemma ParseOfText(m: Mime)
    requires WellFormed(m)
    ensures ParseMime(Text(m)) == Some(m)
  {
    hide Params, ParamsText, ParamsOk, TrimEnd, Trim, AllTokens, IsLower, Text, ParseMime;
    var s, params := Text(m), ParamsText(m.params);
    TextStart(m.params);
    TextEnds(m);
    TrimNothing(s);
    NoDelimiters(m.subtype);
    TrimEndNothing(m.subtype);
    LowerOfLower(m.basetype);
    LowerOfLower(m.subtype);
    assert [] + m.params == m.params;
    ParamsRead(m.params, []);
    TextIs(m);
    ParseSplit(s, m.basetype, m.subtype, params);
  }

  lemma TextIs(m: Mime)
    ensures Text(m) == m.basetype + ("/" + (m.subtype + ParamsText(m.params)))
  {
    hide ParamsText;
  }

  lemma ParseSplit(s: string, basetype: string, subtype: string, params: string)
    requires Trim(s) == s && s == basetype + ("/" + (subtype + params)) && TrimEnd(subtype) == subtype
    requires basetype != "" && AllTokens(basetype) && subtype != "" && AllTokens(subtype)
      && (params == "" || params[0] == ';')
    ensures ParseMime(s) == Some(Mime(Lower(basetype), Lower(subtype), Params(params, [])))
  {
    hide Params, Lower, Until, TrimEnd, Trim, AllTokens;
    var rest := subtype + params;
    NoDelimiters(basetype);
    NoDelimiters(subtype);
    UntilPlain(basetype, "/" + rest, {'/'});
    assert ("/" + rest)[1..] == rest;
    UntilPlain(subtype, params, {';'});
  }

  lemma TrimNothing(s: string)
    requires s != "" && !IsSpace(s[0]) && !IsSpace(s[|s| - 1])
    ensures Trim(s) == s
  {
  }

  lemma TextEnds(m: Mime)
    requires WellFormed(m)
    ensures Text(m) != "" && !IsSpace(Text(m)[0]) && !IsSpace(Text(m)[|Text(m)| - 1])
  {
    hide Escape;
    NoDelimiters(m.basetype);
    NoDelimiters(m.subtype);
    ParamsEnd(m.params);
  }

  lemma {:induction false} ParamsEnd(params: seq<(string, string)>)
    requires ParamsOk(params)
    ensures params != [] ==> ParamsText(params) != "" && !IsSpace(ParamsText(params)[|ParamsText(params)| - 1])
    decreases |params|
  {
    hide Escape;
    if params != [] {
      ParamsEnd(params[1..]);
      TextStart(params[1..]);
      assert ParamOk(params[0]);
      if params[0].1 != "" && AllTokens(params[0].1) {
        NoDelimiters(params[0].1);
      }
    }
  }

  // ----- white space, and names that come twice

  /** A token is made of the visible characters that are not delimiters (section 3.2.6 of RFC 7230), a quoted string of
      all of ISO 8859-1 but the controls other than tab. */
  lemma CharactersAre(c: char)
    ensures IsToken(c) <==> '!' <= c <= '~' && c !in {'"', '(', ')', ',', '/', ':', ';', '<', '=', '>', '?', '@', '[',
                                                      '\\', ']', '{', '}'}
    ensures IsQuotedStringToken(c) <==> c as int < 0x100 && (c as int >= 0x20 || c == '\t') && c as int != 0x7f
    ensures IsSpace(c) <==> c as int in {9, 10, 13, 32}
    ensures LowerChar(c) as int == c as int + if 'A' <= c <= 'Z' then 'a' as int - 'A' as int else 0
  {
  }

  predicate AllSpaces(s: string) {
    forall i :: 0 <= i < |s| ==> IsSpace(s[i])
  }

  /** Exactly the white space in front goes. */
  lemma {:induction false} TrimmedFront(a: string, s: string)
    requires AllSpaces(a) && (s == "" || !IsSpace(s[0]))
    ensures TrimStart(a + s) == s
  {
    if a == "" {
      assert a + s == s;
    } else {
      assert (a + s)[1..] == a[1..] + s && (a + s)[0] == a[0];
      TrimmedFront(a[1..], s);
    }
  }

  /** And at the end. */
  lemma {:induction false} TrimmedBack(s: string, b: string)
    requires AllSpaces(b) && (s == "" || !IsSpace(s[|s| - 1]))
    ensures TrimEnd(s + b) == s
  {
    if b == "" {
      assert s + b == s;
    } else {
      var n := |b| - 1;
      assert (s + b)[..|s| + n] == s + b[..n] && (s + b)[|s| + n] == b[n];
      TrimmedBack(s, b[..n]);
    }
  }

  lemma TrimmedIs(a: string, s: string, b: string)
    requires AllSpaces(a) && AllSpaces(b) && s != "" && !IsSpace(s[0]) && !IsSpace(s[|s| - 1])
    ensures Trim(a + s + b) == s && Trim(s) == s
  {
    hide TrimStart, TrimEnd, AllSpaces;
    assert (s + b)[0] == s[0] && a + (s + b) == a + s + b;
    TrimmedFront(a, s + b);
    TrimmedBack(s, b);
    TrimNothing(s);
  }

  lemma ParsedTrimmed(s: string, s': string)
    requires Trim(s) == s' && Trim(s') == s'
    ensures ParseMime(s) == ParseMime(s')
  {
    hide Trim, TrimStart, TrimEnd, Params, Until, Lower, AllTokens;
  }

  /** White space around a type is passed over. */
  lemma SpacedText(a: string, m: Mime, b: string)
    requires WellFormed(m) && AllSpaces(a) && AllSpaces(b)
    ensures ParseMime(a + Text(m) + b) == Some(m)
  {
    hide WellFormed, Text, Trim, ParseMime, AllSpaces;
    TextEnds(m);
    TrimmedIs(a, Text(m), b);
    ParsedTrimmed(a + Text(m) + b, Text(m));
    ParseOfText(m);
  }

  /** So it is in front of a name: the parameter is the same. */
  lemma SpacedParam(a: string, p: (string, string), rest: string)
    requires AllSpaces(a) && ParamOk(p) && (rest == "" || rest[0] == ';')
    ensures Step(";" + a + (ParamText(p)[1..] + rest)) == (Some(p), rest)
  {
    hide Step, TrimStart, AllSpaces, ParamOk, ParamText, IsSpace;
    TextOfParam(p);
    var s := ParamText(p)[1..] + rest;
    assert s[0] == p.0[0];
    TrimmedFront(a, s);
    assert ParamText(p) + rest == ";" + s;
    assert (";" + a + s)[1..] == a + s && (";" + s)[1..] == s;
    ParamRead(p, rest);
    StepTrims(";" + a + s, ";" + s);
  }

  lemma TextOfParam(p: (string, string))
    requires ParamOk(p)
    ensures p.0 != "" && !IsSpace(p.0[0])
    ensures |ParamText(p)| > 1 && ParamText(p)[0] == ';' && ParamText(p)[1] == p.0[0]
  {
    hide Escape;
    NoDelimiters(p.0);
  }

  lemma StepTrims(s: string, s': string)
    requires s != "" && s[0] == ';' && s' != "" && s'[0] == ';' && TrimStart(s[1..]) == TrimStart(s'[1..])
    ensures Step(s) == Step(s')
  {
    hide TrimStart, Until, Lower, Value, IsLower;
  }

  /** And behind a subtype and behind a value. */
  lemma SpacedSubtype(m: Mime, a: string)
    requires WellFormed(m) && AllSpaces(a) && m.params != []
    ensures ParseMime(m.basetype + ("/" + (m.subtype + a + ParamsText(m.params)))) == Some(m)
  {
    hide WellFormed, Params, ParamsText, TrimStart, TrimEnd, Trim, AllTokens, IsLower, ParseMime, AllSpaces, IsSpace;
    var params := ParamsText(m.params);
    PartsOf(m);
    TrimmedBack(m.subtype, a);
    var s := m.basetype + ("/" + (m.subtype + a + params));
    TextAround(m.basetype, m.subtype + a, params);
    TrimNothing(s);
    ParseSpaced(s, m.basetype, m.subtype, a, params);
  }

  lemma PartsOf(m: Mime)
    requires WellFormed(m)
    ensures m.basetype != "" && AllTokens(m.basetype) && !IsSpace(m.basetype[0]) && Lower(m.basetype) == m.basetype
    ensures m.subtype != "" && AllTokens(m.subtype) && !IsSpace(m.subtype[|m.subtype| - 1])
      && Lower(m.subtype) == m.subtype
    ensures var params := ParamsText(m.params);
      && (m.params != [] ==> params != "" && !IsSpace(params[|params| - 1]))
      && (params == "" || params[0] == ';') && Params(params, []) == m.params
  {
    hide Params, ParamsText, ParamsOk, AllTokens, IsLower;
    TextStart(m.params);
    ParamsEnd(m.params);
    NoDelimiters(m.basetype);
    NoDelimiters(m.subtype);
    LowerOfLower(m.basetype);
    LowerOfLower(m.subtype);
    assert [] + m.params == m.params;
    ParamsRead(m.params, []);
  }

  lemma TextAround(before: string, middle: string, after: string)
    requires before != "" && after != ""
    ensures var s := before + ("/" + (middle + after)); s[0] == before[0] && s[|s| - 1] == after[|after| - 1]
  {
  }

  lemma ParseSpaced(s: string, basetype: string, subtype: string, a: string, params: string)
    requires Trim(s) == s && s == basetype + ("/" + (subtype + a + params)) && TrimEnd(subtype + a) == subtype
    requires basetype != "" && AllTokens(basetype) && subtype != "" && AllTokens(subtype) && AllSpaces(a)
      && (params == "" || params[0] == ';')
    ensures ParseMime(s) == Some(Mime(Lower(basetype), Lower(subtype), Params(params, [])))
  {
    hide Params, Lower, Until, TrimEnd, Trim, AllTokens;
    var rest := subtype + a + params;
    NoDelimiters(basetype);
    NoDelimiters(subtype);
    UntilPlain(basetype, "/" + rest, {'/'});
    assert ("/" + rest)[1..] == rest;
    assert forall i :: 0 <= i < |subtype + a| ==> (subtype + a)[i] !in {';'};
    UntilPlain(subtype + a, params, {';'});
  }

  lemma SpacedValue(v: string, a: string, rest: string)
    requires v != "" && AllTokens(v) && AllSpaces(a) && (rest == "" || rest[0] == ';')
    ensures Value(v + a + rest) == (Some(v), rest)
  {
    hide Unquote, Until, TrimEnd, AllTokens;
    NoDelimiters(v);
    TrimmedBack(v, a);
    assert (v + a + rest)[0] == v[0];
    assert forall i :: 0 <= i < |v + a| ==> (v + a)[i] !in {';'};
    UntilPlain(v + a, rest, {';'});
  }

  /** A parameter is passed over exactly if it has no equals sign, or neither a quote nor anything but white space
      behind it; what follows its semicolon is read on all the same. */
  lemma PassedOver(s: string)
    requires s != "" && s[0] == ';'
    ensures var s1 := TrimStart(s[1..]);
      var n := Until(s1, {';', '='});
      var value := if n < |s1| then s1[n + 1..] else "";
      var blank := (value == "" || value[0] != '"') && AllSpaces(value[..Until(value, {';'})]);
      Step(s).0.None? <==> n == |s1| || s1[n] == ';' || blank
  {
    hide TrimStart, Until, Lower, IsLower, Unquote;
    var s1 := TrimStart(s[1..]);
    var n := Until(s1, {';', '='});
    if n < |s1| && s1[n] == '=' {
      var value := s1[n + 1..];
      assert s1[n..][1..] == value;
      BlankIsSpaces(value[..Until(value, {';'})]);
    }
  }

  lemma BlankIsSpaces(s: string)
    ensures TrimEnd(s) == "" <==> AllSpaces(s)
  {
    if AllSpaces(s) {
      TrimmedBack("", s);
      assert "" + s == s;
    } else {
      LastNotSpace(s);
    }
  }

  lemma {:induction false} LastNotSpace(s: string)
    requires !AllSpaces(s)
    ensures TrimEnd(s) != ""
  {
    if IsSpace(s[|s| - 1]) {
      LastNotSpace(s[..|s| - 1]);
    }
  }

  /** What is there of a name is not touched by what follows. */
  lemma {:induction false} FirstStands(s: string, params: seq<(string, string)>)
    requires s == "" || s[0] == ';'
    ensures params <= Params(s, params)
    decreases |s|
  {
    hide Step;
    if s != "" {
      var (p, rest) := Step(s);
      FirstStands(rest, if p.Some? then Taken(params, p.value.0, p.value.1) else params);
    }
  }

  /** A parameter keeps its value behind a space, and against another one of its name. */
  lemma FirstStandsExample()
    ensures ParseMime(" a/b; c=d;c=e\n") == Some(Mime("a", "b", [("c", "d")]))
  {
    hide Params, ParseMime, Trim, TrimEnd, Lower, Step;
    var s, params: string := "a/b; c=d;c=e", "; c=d;c=e";
    FirstStandsParams();
    assert s == "a" + ("/" + ("b" + params));
    assert " " + s + "\n" == " a/b; c=d;c=e\n";
    TrimmedIs(" ", s, "\n");
    ParsedTrimmed(" a/b; c=d;c=e\n", s);
    TrimEndNothing("b");
    ParseSplit(s, "a", "b", params);
    LowerOfLower("a");
    LowerOfLower("b");
  }

  lemma FirstStandsParams()
    ensures Params("; c=d;c=e", []) == [("c", "d")]
  {
    hide Params, Step, Taken, ParamText;
    var p, q := ("c", "d"), ("c", "e");
    ShortParams();
    SpacedParam(" ", p, ";c=e");
    assert ";" + " " + ("c=d" + ";c=e") == "; c=d;c=e";
    ParamRead(q, "");
    assert ";c=e" + "" == ";c=e";
    ParamsStep("; c=d;c=e", []);
    ParamsStep(";c=e", [p]);
    TakenNew([], p);
    assert [] + [p] == [p];
    assert HasName([p], "c") by { assert [p][0].0 == "c"; }
    EmptyParams([p]);
  }

  lemma ShortParams()
    ensures ParamText(("c", "d")) == ";c=d" && ParamText(("c", "e")) == ";c=e" && ";c=d"[1..] == "c=d"
    ensures ParamOk(("c", "d")) && ParamOk(("c", "e"))
  {
    hide Escape;
  }

  // ----- quoted values that are never closed

  /** A value as the standard has it. */
  function StandardValue(s: string): (Option<string>, string) {
    if s != "" && s[0] == '"' then
      var (value, after) := QuotedString(s[1..]);
      (Some(value), after[Until(after, {';'})..])
    else Value(s)
  }

  /** A quoted value that is never closed and has a semicolon behind its last escape. */
  predicate ReadTwice(s: string) {
    s != "" && s[0] == '"' && OpenEnd(s[1..]).Some? && ';' in OpenEnd(s[1..]).value
  }

  /** Values are read as the standard has it, except exactly those: what follows the semicolon, a part of the value, is
      read once more as parameters. */
  lemma ValueIsStandard(s: string)
    ensures Value(s) == StandardValue(s) <==> !ReadTwice(s)
  {
    hide Unquote, QuotedString, OpenEnd, TrimEnd;
    if s != "" && s[0] == '"' {
      UnquoteIs(s[1..]);
      var after := Unquote(s[1..]).1;
      assert ';' in after <==> Until(after, {';'}) < |after|;
    }
  }

  /** An opening quote with neither quote nor backslash behind it. */
  lemma OpenQuote(v: string, n: nat)
    requires (forall i :: 0 <= i < |v| ==> v[i] != '"' && v[i] != '\\') && n < |v| && v[n] == ';'
    requires forall i :: 0 <= i < n ==> v[i] != ';'
    ensures Value("\"" + v) == (Some(v), v[n..])
  {
    hide Unquote, Until, TrimEnd;
    var s := "\"" + v;
    assert s[0] == '"' && s[1..] == v;
    UntilPlain(v, "", {'"', '\\'});
    Plus(v, "", "");
    UnquoteSplit(v);
    UntilPlain(v[..n], v[n..], {';'});
    assert v[..n] + v[n..] == v;
  }

  /** So the end of one parameter is taken for another. */
  lemma ReadTwiceExample()
    ensures ParseMime("a/b;c=\"d;e=f") == Some(Mime("a", "b", [("c", "d;e=f"), ("e", "f")]))
  {
    hide Params, ParseMime, Trim, TrimEnd, Lower;
    var s, params: string := "a/b;c=\"d;e=f", ";c=\"d;e=f";
    ReadTwiceParams();
    assert s == "a" + ("/" + ("b" + params));
    TrimNothing(s);
    TrimEndNothing("b");
    ParseSplit(s, "a", "b", params);
    LowerOfLower("a");
    LowerOfLower("b");
  }

  lemma ReadTwiceParams()
    ensures Params(";c=\"d;e=f", []) == [("c", "d;e=f"), ("e", "f")]
  {
    hide Params, Step, Taken, Value;
    var v: string := "d;e=f";
    OpenQuote(v, 1);
    assert v[1..] == ";e=f";
    NamedValue("c", "\"" + v);
    PlainValue("f", "");
    Plus("f", "", "");
    NamedValue("e", "f");
    assert ";" + ("c" + ("=" + ("\"" + v))) == ";c=\"d;e=f";
    assert ";" + ("e" + ("=" + "f")) == ";e=f";
    ParamsStep(";c=\"d;e=f", []);
    ParamsStep(";e=f", [("c", v)]);
    TakenNew([], ("c", v));
    assert [] + [("c", v)] == [("c", v)];
    assert Params(";c=\"d;e=f", []) == Params(";e=f", [("c", v)]);
    TakenNew([("c", v)], ("e", "f"));
    assert [("c", v)] + [("e", "f")] == [("c", v), ("e", "f")];
    assert Step(";e=f") == (Some(("e", "f")), "");
    EmptyParams([("c", v), ("e", "f")]);
  }

  /** What was accepted, printed and parsed again, is the same. */
  lemma Stable(s: string)
    requires ParseMime(s).Some?
    ensures ParseMime(Text(ParseMime(s).value)) == ParseMime(s)
  {
    hide ParseMime, WellFormed, Text;
    ParsedIsWellFormed(s);
    ParseOfText(ParseMime(s).value);
  }
}
