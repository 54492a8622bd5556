/**
 Creating an automotive-bus codec from its MIME type, as in codec.c: tokenising, the parameter
 table of codec_config and codec_stat, and the guards of ncodec_create.
 */
module Mime {
  import opened Bytes

  const CODEC := "application/x-automotive-bus"
  const EINVAL := 22
  const ULONG_MAX := WORD * WORD - 1

  /** The parameters in the order codec_stat enumerates them. */
  const NAMES: seq<string> :=
    ["interface", "type", "bus", "schema", "bus_id", "node_id", "interface_id", "swc_id", "ecu_id"]

  //////////////////////////////////////////////////////////////////////////////
  // Tokens
  //////////////////////////////////////////////////////////////////////////////

  predicate IsDelim(c: char) { c == ';' || c == ' ' }

  predicate IsSpace(c: char)
  {
    c == ' ' || '\t' <= c <= '\r'
  }

  /** The number of leading delimiters, and of leading other characters. */
  function DelimRun(s: string): (n: nat)
    ensures n <= |s|
  {
    if s == [] || !IsDelim(s[0]) then 0 else 1 + DelimRun(s[1..])
  }

  function TokenRun(s: string): (n: nat)
    ensures n <= |s|
    ensures s != [] && !IsDelim(s[0]) ==> n > 0
  {
    if s == [] || IsDelim(s[0]) then 0 else 1 + TokenRun(s[1..])
  }

  lemma {:induction false} AfterDelims(s: string)
    ensures s[DelimRun(s)..] != [] ==> !IsDelim(s[DelimRun(s)])
  {
    if s != [] && IsDelim(s[0]) {
      AfterDelims(s[1..]);
      assert s[DelimRun(s)..] == s[1..][DelimRun(s[1..])..];
    }
  }

  function Tokens(s: string): (ts: seq<string>)
    decreases |s|
  {
    var t := s[DelimRun(s)..];
    if t == [] then []
    else
      AfterDelims(s);
      [t[..TokenRun(t)]] + Tokens(t[TokenRun(t)..])
  }

  lemma {:induction false} Runs(s: string)
    ensures forall k | 0 <= k < DelimRun(s) :: s[k] == ';' || s[k] == ' '
    ensures forall k | 0 <= k < TokenRun(s) :: s[k] != ';' && s[k] != ' '
    ensures TokenRun(s) < |s| ==> s[TokenRun(s)] == ';' || s[TokenRun(s)] == ' '
  {
    if s != [] {
      Runs(s[1..]);
      assert forall k | 0 < k < |s| :: s[k] == s[1..][k - 1];
    }
  }

  /** A non-empty run of characters other than ';' and blank that lies at p. */
  predicate TokenAt(s: string, t: string, p: nat)
  {
    t != [] && ';' !in t && ' ' !in t && p + |t| <= |s| && s[p..p + |t|] == t
  }

  /** From position `from` on, a character is ';', a blank or part of a token. */
  predicate Covered(s: string, from: nat, ts: seq<string>, starts: seq<nat>)
    requires |starts| == |ts|
  {
    forall k | from <= k < |s| ::
      s[k] == ';' || s[k] == ' ' || exists i :: 0 <= i < |ts| && starts[i] <= k < starts[i] + |ts[i]|
  }

  lemma {:induction false} CutFrom(s: string, at: nat) returns (starts: seq<nat>)
    requires at <= |s|
    ensures |starts| == |Tokens(s[at..])| && Covered(s, at, Tokens(s[at..]), starts)
    ensures forall i | 0 <= i < |starts| :: starts[i] >= at && TokenAt(s, Tokens(s[at..])[i], starts[i])
    ensures forall i | 0 < i < |starts| :: starts[i - 1] + |Tokens(s[at..])[i - 1]| < starts[i]
    decreases |s| - at
  {
    hide Covered, Tokens, TokenAt;
    var d, m := NextToken(s, at);
    if d == |s| {
      starts := [];
      NothingCut(s, at);
      return;
    }
    var later := CutFrom(s, m);
    starts := [d] + later;
    OneMoreCut(s, at, d, s[d..m], Tokens(s[m..]), later);
    if |later| > 0 { assert later[0] > m by { NotAtDelim(s, Tokens(s[m..])[0], later[0]); } }
  }

  lemma NotAtDelim(s: string, t: string, p: nat)
    requires TokenAt(s, t, p)
    ensures p < |s| && s[p] != ';' && s[p] != ' '
  {
    assert s[p] == s[p..p + |t|][0] == t[0];
  }

  /** The first token from a position lies at d and ends at m, in front of a delimiter or the end. */
  lemma NextToken(s: string, at: nat) returns (d: nat, m: nat)
    requires at <= |s|
    ensures at <= d <= m <= |s| && forall k | at <= k < d :: s[k] == ';' || s[k] == ' '
    ensures d == |s| ==> Tokens(s[at..]) == []
    ensures d < |s| ==>
      && d < m && Tokens(s[at..]) == [s[d..m]] + Tokens(s[m..]) && TokenAt(s, s[d..m], d)
      && (m < |s| ==> s[m] == ';' || s[m] == ' ')
  {
    hide DelimRun, TokenRun, TokenAt, Tokens, IsDelim;
    d := DelimsEnd(s, at);
    m := d;
    TokensAre(s[at..]);
    if d < |s| {
      m := TokenEnd(s, d);
      var v := s[d..];
      assert v[..m - d] == s[d..m];
      assert v[m - d..] == s[m..];
    }
  }

  lemma TokensAre(s: string)
    ensures
      var t := s[DelimRun(s)..];
      Tokens(s) == if t == [] then [] else [t[..TokenRun(t)]] + Tokens(t[TokenRun(t)..])
  {
  }

  lemma DelimsEnd(s: string, at: nat) returns (d: nat)
    requires at <= |s|
    ensures at <= d <= |s| && s[at..][DelimRun(s[at..])..] == s[d..]
    ensures forall k | at <= k < d :: s[k] == ';' || s[k] == ' '
    ensures d < |s| ==> !IsDelim(s[d])
  {
    hide DelimRun, IsDelim;
    var u := s[at..];
    d := at + DelimRun(u);
    assert u[DelimRun(u)..] == s[d..];
    Runs(u);
    AfterDelims(u);
    assert forall k | at <= k < d :: s[k] == u[k - at];
    if d < |s| { assert u[d - at] == s[d]; }
  }

  lemma TokenEnd(s: string, d: nat) returns (m: nat)
    requires d < |s| && !IsDelim(s[d])
    ensures d < m <= |s| && m == d + TokenRun(s[d..])
    ensures TokenAt(s, s[d..m], d) && (m < |s| ==> s[m] == ';' || s[m] == ' ')
  {
    hide TokenRun, IsDelim;
    var v := s[d..];
    m := d + TokenRun(v);
    Runs(v);
    TokenRunSome(v);
    assert forall k | d <= k < m :: s[k] == v[k - d];
    if m < |s| { assert v[m - d] == s[m]; }
  }

  lemma TokenRunSome(s: string)
    requires s != [] && !IsDelim(s[0])
    ensures TokenRun(s) > 0
  {
  }

  lemma NothingCut(s: string, at: nat)
    requires at <= |s| && forall k | at <= k < |s| :: s[k] == ';' || s[k] == ' '
    ensures Covered(s, at, [], [])
  {
  }

  lemma OneMoreCut(s: string, at: nat, d: nat, t: string, ts: seq<string>, later: seq<nat>)
    requires at <= d && d + |t| <= |s| && |later| == |ts| && Covered(s, d + |t|, ts, later)
    requires forall k | at <= k < d :: s[k] == ';' || s[k] == ' '
    ensures Covered(s, at, [t] + ts, [d] + later)
  {
    var us, starts := [t] + ts, [d] + later;
    forall k | at <= k < |s| && s[k] != ';' && s[k] != ' '
      ensures exists i :: 0 <= i < |us| && starts[i] <= k < starts[i] + |us[i]|
    {
      if k < d + |t| {
        assert starts[0] <= k < starts[0] + |us[0]|;
      } else {
        var i :| 0 <= i < |ts| && later[i] <= k < later[i] + |ts[i]|;
        assert starts[i + 1] <= k < starts[i + 1] + |us[i + 1]|;
      }
    }
  }

  /**
   Where the tokens lie: none is empty or holds a ';' or a blank, at least one of those is
   between two of them, and every other character of the text belongs to a token.
   */
  lemma TokensCut(s: string) returns (starts: seq<nat>)
    ensures |starts| == |Tokens(s)|
    ensures forall i | 0 <= i < |starts| ::
      var t := Tokens(s)[i];
      t != [] && ';' !in t && ' ' !in t && starts[i] + |t| <= |s| && s[starts[i]..starts[i] + |t|] == t
    ensures forall i | 0 < i < |starts| :: starts[i - 1] + |Tokens(s)[i - 1]| < starts[i]
    ensures forall k | 0 <= k < |s| ::
      s[k] == ';' || s[k] == ' ' || exists i :: 0 <= i < |starts| && starts[i] <= k < starts[i] + |Tokens(s)[i]|
  {
    hide Tokens;
    assert s[0..] == s;
    starts := CutFrom(s, 0);
    assert forall i | 0 <= i < |starts| :: TokenAt(s, Tokens(s)[i], starts[i]);
  }

  method SkipDelims(s: string, at: nat) returns (start: nat)
    requires at <= |s|
    ensures at <= start <= |s| && s[at..][DelimRun(s[at..])..] == s[start..]
    ensures start < |s| ==> !IsDelim(s[start])
  {
    start := at;
    while start < |s| && IsDelim(s[start])
      invariant at <= start <= |s|
      invariant DelimRun(s[at..]) == start - at + DelimRun(s[start..])
    {
      assert s[start..][1..] == s[start + 1..];
      start := start + 1;
    }
  }

  method SkipToken(s: string, start: nat) returns (next: nat)
    requires start < |s| && !IsDelim(s[start])
    ensures start < next <= |s| && next == start + TokenRun(s[start..])
  {
    next := start;
    while next < |s| && !IsDelim(s[next])
      invariant start <= next <= |s|
      invariant TokenRun(s[start..]) == next - start + TokenRun(s[next..])
    {
      assert s[next..][1..] == s[next + 1..];
      next := next + 1;
    }
  }

  /** strtok_r with the delimiters "; ", from position `at`. */
  method Strtok(s: string, at: nat) returns (token: Option<string>, next: nat)
    requires at <= |s|
    ensures at <= next <= |s|
    ensures token.None? ==> Tokens(s[at..]) == []
    ensures token.Some? ==> next > at && Tokens(s[at..]) == [token.value] + Tokens(s[next..])
  {
    hide IsDelim, DelimRun, TokenRun, Tokens;
    TokensAre(s[at..]);
    var start := SkipDelims(s, at);
    if start == |s| { return None, start; }
    next := SkipToken(s, start);
    ghost var t := s[start..];
    assert t[..next - start] == s[start..next];
    assert t[next - start..] == s[next..];
    token := Some(s[start..next]);
  }

  //////////////////////////////////////////////////////////////////////////////
  // trim, strchr and strtoul
  //////////////////////////////////////////////////////////////////////////////

  /** The suffix from the first character that is not white space. */
  function TrimLeft(s: string): (t: string)
    ensures |t| <= |s|
  {
    if s != [] && IsSpace(s[0]) then TrimLeft(s[1..]) else s
  }

  /** The prefix up to the last character that is not white space. */
  function TrimRight(s: string): (t: string)
    ensures |t| <= |s|
  {
    if s != [] && IsSpace(s[|s| - 1]) then TrimRight(s[..|s| - 1]) else s
  }

  lemma {:induction false} LeftTrimmed(s: string)
    ensures
      var n := |s| - |TrimLeft(s)|;
      && TrimLeft(s) == s[n..] && (forall k | 0 <= k < n :: IsSpace(s[k]))
      && (n < |s| ==> !IsSpace(s[n]))
  {
    hide IsSpace;
    if s != [] && IsSpace(s[0]) {
      LeftTrimmed(s[1..]);
      var n := |s| - |TrimLeft(s)|;
      forall k | 0 <= k < n ensures IsSpace(s[k]) {
        assert k > 0 ==> s[k] == s[1..][k - 1];
      }
    }
  }

  lemma {:induction false} RightTrimmed(s: string)
    ensures
      var n := |TrimRight(s)|;
      && TrimRight(s) == s[..n] && (forall k | n <= k < |s| :: IsSpace(s[k]))
      && (n > 0 ==> !IsSpace(s[n - 1]))
  {
    hide IsSpace;
    if s != [] && IsSpace(s[|s| - 1]) {
      RightTrimmed(s[..|s| - 1]);
    }
  }

  /** What is trimmed is white space at the ends, and no more is left there. */
  lemma TrimIsTight(s: string)
    ensures
      var t := TrimRight(TrimLeft(s));
      exists i: nat, j: nat ::
        && i <= j <= |s| && t == s[i..j]
        && (forall k | 0 <= k < |s| && !(i <= k < j) :: s[k] as int == 32 || 9 <= s[k] as int <= 13)
        && (t != [] ==>
              && t[0] as int != 32 && !(9 <= t[0] as int <= 13)
              && t[|t| - 1] as int != 32 && !(9 <= t[|t| - 1] as int <= 13))
  {
    hide TrimLeft, TrimRight;
    var u := TrimLeft(s);
    LeftTrimmed(s);
    RightTrimmed(u);
    var i, t := |s| - |u|, TrimRight(u);
    var j := i + |t|;
    assert t == s[i..j];
    forall k | j <= k < |s| ensures IsSpace(s[k]) {
      assert s[k] == u[k - i];
    }
  }

  method Trim(s: string) returns (t: string)
    ensures t == TrimRight(TrimLeft(s))
  {
    t := s;
    while t != [] && IsSpace(t[0])
      invariant TrimLeft(t) == TrimLeft(s)
      decreases |t|
    {
      t := t[1..];
    }
    while t != [] && IsSpace(t[|t| - 1])
      invariant TrimRight(t) == TrimRight(TrimLeft(s))
      decreases |t|
    {
      t := t[..|t| - 1];
    }
  }

  /** A parameter token as name and value, if it has an '='. */
  function Split(token: string): Option<(string, string)>
  {
    var n := Find(token, '=');
    if n == |token| then None
    else Some((TrimRight(TrimLeft(token[..n])), TrimRight(TrimLeft(token[n + 1..]))))
  }

  /** The position of the first c, or the length. */
  function Find(s: string, c: char): (n: nat)
    ensures n <= |s|
  {
    if s == [] || s[0] == c then 0 else 1 + Find(s[1..], c)
  }

  /** A token is a parameter if and only if it has an '='; the first one ends the name. */
  lemma SplitMeans(token: string)
    ensures '=' !in token ==> Split(token) == None
    ensures forall n | 0 <= n < |token| && token[n] == '=' && '=' !in token[..n] ::
      Split(token) == Some((TrimRight(TrimLeft(token[..n])), TrimRight(TrimLeft(token[n + 1..]))))
  {
    hide TrimLeft, TrimRight, Find;
    FindMeans(token, '=');
    forall n | 0 <= n < |token| && token[n] == '=' && '=' !in token[..n] ensures n == Find(token, '=') {
      FindIn(token[..n], '=', token[n + 1..]);
      assert token == token[..n] + ['='] + token[n + 1..];
    }
  }

  lemma {:induction false} FindMeans(s: string, c: char)
    ensures c !in s[..Find(s, c)] && (Find(s, c) < |s| ==> s[Find(s, c)] == c)
  {
    if s != [] && s[0] != c {
      FindMeans(s[1..], c);
      assert s[..Find(s, c)] == [s[0]] + s[1..][..Find(s[1..], c)];
    }
  }

  predicate IsDigit(c: char) { '0' <= c <= '9' }

  /** The value of the leading digits. */
  function LeadingNumber(s: string, sofar: nat): nat
  {
    if s == [] || !IsDigit(s[0]) then sofar
    else LeadingNumber(s[1..], sofar * 10 + (s[0] as int - '0' as int))
  }

  /** strtoul(s, NULL, 10): white space, a sign, digits; clamped, and negated after a minus sign. */
  function StrToUl(s: string): nat
  {
    var t := TrimLeft(s);
    var digits := if t != [] && (t[0] == '+' || t[0] == '-') then t[1..] else t;
    var v := LeadingNumber(digits, 0);
    if v > ULONG_MAX then ULONG_MAX
    else if t != [] && t[0] == '-' && v != 0 then ULONG_MAX + 1 - v
    else v
  }

  /** The value stored in a uint8. */
  function Id(s: string): byte
  {
    StrToUl(s) % 256
  }

  //////////////////////////////////////////////////////////////////////////////
  // What a MIME type means
  //////////////////////////////////////////////////////////////////////////////

  function Params(tokens: seq<string>): seq<(string, string)>
  {
    if tokens == [] then []
    else
      (var p := Split(tokens[0]); if p.Some? then [p.value] else []) + Params(tokens[1..])
  }

  /** The last value given for a name. */
  function Last(ps: seq<(string, string)>, name: string): Option<string>
  {
    if ps == [] then None
    else
      var p := ps[|ps| - 1];
      if p.0 == name then Some(p.1) else Last(ps[..|ps| - 1], name)
  }

  /** Parameters are read token by token; one without an '=' is no parameter. */
  lemma {:induction false} ParamsConcat(a: seq<string>, b: seq<string>)
    ensures Params(a + b) == Params(a) + Params(b)
    ensures |a| == 1 && '=' !in a[0] ==> Params(a) == []
    ensures |a| == 1 && '=' in a[0] ==> Split(a[0]).Some? && Params(a) == [Split(a[0]).value]
  {
    hide Split;
    if a == [] {
      assert a + b == b;
    } else {
      assert (a + b)[1..] == a[1..] + b;
      ParamsConcat(a[1..], b);
      SplitSome(a[0]);
    }
  }

  lemma SplitSome(token: string)
    ensures Split(token).Some? <==> '=' in token
  {
    hide Find;
    FindMeans(token, '=');
    if Find(token, '=') == |token| { assert token[..|token|] == token; }
  }

  /** A name has the value it was given last, and none if it was never given one. */
  lemma {:induction false} LastMeans(ps: seq<(string, string)>, i: nat)
    requires i < |ps| && forall j | i < j < |ps| :: ps[j].0 != ps[i].0
    ensures Last(ps, ps[i].0) == Some(ps[i].1)
    decreases |ps|
  {
    if i < |ps| - 1 { LastMeans(ps[..|ps| - 1], i); }
  }

  lemma {:induction false} NeverGiven(ps: seq<(string, string)>, name: string)
    requires forall i | 0 <= i < |ps| :: ps[i].0 != name
    ensures Last(ps, name) == None
  {
    if ps != [] { NeverGiven(ps[..|ps| - 1], name); }
  }

  lemma LastOfNone()
    ensures forall n :: Last([], n) == None
  {
  }

  lemma LastAdded(ps: seq<(string, string)>, p: (string, string))
    ensures forall n :: Last(ps + [p], n) == if p.0 == n then Some(p.1) else Last(ps, n)
  {
    assert (ps + [p])[..|ps|] == ps;
  }

  /** The guard conditions, on the value of each selector. */
  predicate Guards(interface_: Option<string>, type_: Option<string>, bus: Option<string>, schema: Option<string>)
  {
    && interface_ == Some("stream")
    && (type_ == Some("pdu") || (type_ == Some("frame") && bus == Some("can")))
    && schema == Some("fbs")
  }

  predicate Accepts(ps: seq<(string, string)>)
  {
    Guards(Last(ps, "interface"), Last(ps, "type"), Last(ps, "bus"), Last(ps, "schema"))
  }

  /** The position of a parameter name in NAMES, -2 if it is unknown. */
  function IndexOfName(name: string): int
  {
    if name == "interface" then 0
    else if name == "type" then 1
    else if name == "bus" then 2
    else if name == "schema" then 3
    else if name == "bus_id" then 4
    else if name == "node_id" then 5
    else if name == "interface_id" then 6
    else if name == "swc_id" then 7
    else if name == "ecu_id" then 8
    else -2
  }

  lemma KnownName(name: string)
    ensures forall k | 0 <= k < |NAMES| :: NAMES[k] == name <==> k == IndexOfName(name)
    ensures name in NAMES <==> IndexOfName(name) >= 0
  {
    forall k | 0 <= k < |NAMES| ensures IndexOfName(NAMES[k]) == k {
      NameAt(k);
    }
    if IndexOfName(name) >= 0 { assert NAMES[IndexOfName(name)] == name; }
  }

  lemma NameAt(k: nat)
    requires k < |NAMES|
    ensures IndexOfName(NAMES[k]) == k
  {
  }

  //////////////////////////////////////////////////////////////////////////////
  // The parameter table
  //////////////////////////////////////////////////////////////////////////////

  datatype Kind = Unset | CanFrames | Pdus

  class AbCodec {
    // Which implementation to take.
    var interface_: Option<string>
    var type_: Option<string>
    var bus: Option<string>
    var schema: Option<string>
    // Each id in the text given and as the number stored.
    var busIdStr: Option<string>
    var nodeIdStr: Option<string>
    var interfaceIdStr: Option<string>
    var swcIdStr: Option<string>
    var ecuIdStr: Option<string>
    var busId: byte
    var nodeId: byte
    var interfaceId: byte
    var swcId: byte
    var ecuId: byte
    // Whose functions the codec ends up with.
    var kind: Kind

    /** The text of parameter k of NAMES. */
    ghost function Value(k: int): Option<string>
      reads this
    {
      if k == 0 then interface_
      else if k == 1 then type_
      else if k == 2 then bus
      else if k == 3 then schema
      else if k == 4 then busIdStr
      else if k == 5 then nodeIdStr
      else if k == 6 then interfaceIdStr
      else if k == 7 then swcIdStr
      else if k == 8 then ecuIdStr
      else None
    }

    /** Every number is the one its text stands for, 0 if never set. */
    ghost predicate Valid()
      reads this
    {
      && busId == (if busIdStr.Some? then Id(busIdStr.value) else 0)
      && nodeId == (if nodeIdStr.Some? then Id(nodeIdStr.value) else 0)
      && interfaceId == (if interfaceIdStr.Some? then Id(interfaceIdStr.value) else 0)
      && swcId == (if swcIdStr.Some? then Id(swcIdStr.value) else 0)
      && ecuId == (if ecuIdStr.Some? then Id(ecuIdStr.value) else 0)
    }

    constructor ()
      ensures Valid() && kind == Unset && forall k :: Value(k) == None
    {
      interface_, type_, bus, schema := None, None, None, None;
      busIdStr, nodeIdStr, interfaceIdStr, swcIdStr, ecuIdStr := None, None, None, None, None;
      busId, nodeId, interfaceId, swcId, ecuId := 0, 0, 0, 0, 0;
      kind := Unset;
    }

    /** codec_config: the named parameter takes the value and all others keep theirs. */
    method Config(name: string, value: string) returns (r: int)
      requires Valid()
      modifies this
      ensures Valid() && kind == old(kind)
      ensures r == if name in NAMES then 0 else -22
      ensures forall k :: Value(k) == if k >= 0 && k == IndexOfName(name) then Some(value) else old(Value(k))
    {
      hide Id;
      KnownName(name);
      if name == "interface" { interface_ := Some(value); return 0; }
      if name == "type" { type_ := Some(value); return 0; }
      if name == "bus" { bus := Some(value); return 0; }
      if name == "schema" { schema := Some(value); return 0; }
      r := ConfigId(name, value);
    }

    method ConfigId(name: string, value: string) returns (r: int)
      requires Valid() && !(0 <= IndexOfName(name) < 4)
      modifies this
      ensures Valid() && kind == old(kind)
      ensures r == if IndexOfName(name) >= 0 then 0 else -EINVAL
      ensures forall k :: Value(k) == if k >= 0 && k == IndexOfName(name) then Some(value) else old(Value(k))
    {
      hide Id;
      if name == "bus_id" { busIdStr, busId := Some(value), Id(value); return 0; }
      if name == "node_id" { nodeIdStr, nodeId := Some(value), Id(value); return 0; }
      if name == "interface_id" { interfaceIdStr, interfaceId := Some(value), Id(value); return 0; }
      if name == "swc_id" { swcIdStr, swcId := Some(value), Id(value); return 0; }
      if name == "ecu_id" { ecuIdStr, ecuId := Some(value), Id(value); return 0; }
      return -EINVAL;
    }

    /** codec_stat: the parameter of an index, or index -1 past the table. */
    method Stat(index: int) returns (index': int, name: Option<string>, value: Option<string>)
      ensures 0 <= index < |NAMES| ==> index' == index && name == Some(NAMES[index]) && value == Value(index)
      ensures index == 0 ==> name == Some("interface") && value == interface_
      ensures index == 1 ==> name == Some("type") && value == type_
      ensures index == 2 ==> name == Some("bus") && value == bus
      ensures index == 3 ==> name == Some("schema") && value == schema
      ensures index == 4 ==> name == Some("bus_id") && value == busIdStr
      ensures index == 5 ==> name == Some("node_id") && value == nodeIdStr
      ensures index == 6 ==> name == Some("interface_id") && value == interfaceIdStr
      ensures index == 7 ==> name == Some("swc_id") && value == swcIdStr
      ensures index == 8 ==> name == Some("ecu_id") && value == ecuIdStr
      ensures !(0 <= index <= 8) ==> index' == -1 && name == None && value == None
    {
      index', name, value := index, None, None;
      match index {
        case 0 => name, value := Some("interface"), interface_;
        case 1 => name, value := Some("type"), type_;
        case 2 => name, value := Some("bus"), bus;
        case 3 => name, value := Some("schema"), schema;
        case 4 => name, value := Some("bus_id"), busIdStr;
        case 5 => name, value := Some("node_id"), nodeIdStr;
        case 6 => name, value := Some("interface_id"), interfaceIdStr;
        case 7 => name, value := Some("swc_id"), swcIdStr;
        case 8 => name, value := Some("ecu_id"), ecuIdStr;
        case _ => index' := -1;
      }
    }
  }

  //////////////////////////////////////////////////////////////////////////////
  // ncodec_create
  //////////////////////////////////////////////////////////////////////////////

  method IndexOf(s: string, c: char) returns (n: nat)
    ensures n == Find(s, c)
  {
    n := 0;
    while n < |s| && s[n] != c
      invariant n <= |s| && Find(s, c) == n + Find(s[n..], c)
    {
      assert s[n..][1..] == s[n + 1..];
      n := n + 1;
    }
    assert s[n..] == [] || s[n..][0] == c;
  }

  /** A parameter token split at its first '=' and trimmed. */
  method SplitParam(token: string) returns (p: Option<(string, string)>)
    ensures p == Split(token)
  {
    var n := IndexOf(token, '=');
    if n == |token| { return None; }
    var name := Trim(token[..n]);
    var value := Trim(token[n + 1..]);
    p := Some((name, value));
  }

  /** Parse out the parameters that follow position `at`. */
  method Configure(nc: AbCodec, mime: string, at: nat)
    requires at <= |mime| && nc.Valid() && forall k :: nc.Value(k) == None
    modifies nc
    ensures nc.Valid() && nc.kind == old(nc.kind)
    ensures forall k | 0 <= k < |NAMES| :: nc.Value(k) == Last(Params(Tokens(mime[at..])), NAMES[k])
  {
    hide Tokens, Split, Last, nc.Value, nc.Valid, IndexOfName;
    ghost var ps: seq<(string, string)> := [];
    LastOfNone();
    var pos := at;
    while true
      invariant at <= pos <= |mime| && nc.Valid() && nc.kind == old(nc.kind)
      invariant ps + Params(Tokens(mime[pos..])) == Params(Tokens(mime[at..]))
      invariant forall k | 0 <= k < |NAMES| :: nc.Value(k) == Last(ps, NAMES[k])
      decreases |mime| - pos
    {
      var token, next := Strtok(mime, pos);
      if token.None? { break; }
      var p := SplitParam(token.value);
      ghost var more := if p.Some? then [p.value] else [];
      assert ([token.value] + Tokens(mime[next..]))[1..] == Tokens(mime[next..]);
      assert Params(Tokens(mime[pos..])) == more + Params(Tokens(mime[next..]));
      if p.Some? {
        KnownName(p.value.0);
        var _ := nc.Config(p.value.0, p.value.1);
        LastAdded(ps, p.value);
      }
      assert more == [] ==> ps + more == ps;
      ps := ps + more;
      pos := next;
    }
    assert ps + [] == ps;
  }

  /** Null unless the codec name and the guards are met; a MIME type without a token is not accepted by strtok_r. */
  method NcodecCreate(mime: string) returns (nc: AbCodec?)
    requires Tokens(mime) != []
    ensures nc != null <==> CODEC <= Tokens(mime)[0] && Accepts(Params(Tokens(mime)[1..]))
    ensures
      var ps := Params(Tokens(mime)[1..]);
      nc != null <==>
        && "application/x-automotive-bus" <= Tokens(mime)[0]
        && Last(ps, "interface") == Some("stream") && Last(ps, "schema") == Some("fbs")
        && (Last(ps, "type") == Some("pdu") || (Last(ps, "type") == Some("frame") && Last(ps, "bus") == Some("can")))
    ensures nc != null ==>
      && fresh(nc) && nc.Valid()
      && (forall k | 0 <= k < |NAMES| :: nc.Value(k) == Last(Params(Tokens(mime)[1..]), NAMES[k]))
      && nc.kind == if nc.type_ == Some("pdu") then Pdus else CanFrames
  {
    hide Tokens, Params, Last, Id;
    assert mime[0..] == mime;
    var name, pos := Strtok(mime, 0);
    assert Tokens(mime)[0] == name.value && Tokens(mime)[1..] == Tokens(mime[pos..]);
    if !(CODEC <= name.value) { return null; }
    var c := new AbCodec();
    Configure(c, mime, pos);
    assert c.interface_ == c.Value(0) && c.type_ == c.Value(1) && c.bus == c.Value(2) && c.schema == c.Value(3);
    if c.interface_.None? || c.interface_.value != "stream" { return null; }
    if c.type_.None? { return null; }
    if c.type_.value == "frame" {
      if c.bus.None? || c.bus.value != "can" { return null; }
    } else if c.type_.value != "pdu" {
      return null;
    }
    if c.schema.None? || c.schema.value != "fbs" { return null; }
    Dispatch(c);
    nc := c;
  }

  method Dispatch(c: AbCodec)
    requires c.Valid() && (c.type_ == Some("frame") || c.type_ == Some("pdu"))
    modifies c`kind
    ensures c.Valid() && forall k :: c.Value(k) == old(c.Value(k))
    ensures c.kind == if c.type_ == Some("pdu") then Pdus else CanFrames
  {
    hide Id;
    c.kind := if c.type_ == Some("frame") then CanFrames else Pdus;
  }

  //////////////////////////////////////////////////////////////////////////////
  // Printing and parsing
  //////////////////////////////////////////////////////////////////////////////

  /** One printed parameter, behind any run of delimiters. */
  datatype Item = Item(sep: string, name: string, value: string)

  predicate Printable(i: Item)
  {
    && i.sep != [] && (forall k | 0 <= k < |i.sep| :: IsDelim(i.sep[k]))
    && i.name in NAMES
    && forall k | 0 <= k < |i.value| :: !IsDelim(i.value[k]) && !IsSpace(i.value[k])
  }

  function TokenOf(i: Item): string
  {
    i.name + "=" + i.value
  }

  function PrintItems(items: seq<Item>): string
  {
    if items == [] then [] else items[0].sep + TokenOf(items[0]) + PrintItems(items[1..])
  }

  function Print(items: seq<Item>): string
  {
    CODEC + PrintItems(items)
  }

  function Pairs(items: seq<Item>): seq<(string, string)>
  {
    if items == [] then [] else [(items[0].name, items[0].value)] + Pairs(items[1..])
  }

  lemma {:induction false} DelimRunOf(d: string, rest: string)
    requires (forall k | 0 <= k < |d| :: IsDelim(d[k])) && (rest == [] || !IsDelim(rest[0]))
    ensures DelimRun(d + rest) == |d|
  {
    if d == [] {
      assert d + rest == rest;
    } else {
      assert (d + rest)[1..] == d[1..] + rest;
      DelimRunOf(d[1..], rest);
    }
  }

  lemma {:induction false} TokenRunOf(t: string, rest: string)
    requires (forall k | 0 <= k < |t| :: !IsDelim(t[k])) && (rest == [] || IsDelim(rest[0]))
    ensures TokenRun(t + rest) == |t|
  {
    if t == [] {
      assert t + rest == rest;
    } else {
      assert (t + rest)[1..] == t[1..] + rest;
      TokenRunOf(t[1..], rest);
    }
  }

  lemma OneToken(d: string, t: string, rest: string)
    requires (forall k | 0 <= k < |d| :: IsDelim(d[k])) && t != []
    requires (forall k | 0 <= k < |t| :: !IsDelim(t[k])) && (rest == [] || IsDelim(rest[0]))
    ensures Tokens(d + t + rest) == [t] + Tokens(rest)
  {
    hide IsDelim;
    var s, u := d + t + rest, t + rest;
    assert s == d + u;
    DelimRunOf(d, u);
    TokenRunOf(t, rest);
    assert s[|d|..] == u && u[..|t|] == t && u[|t|..] == rest;
  }

  lemma {:induction false} TrimNothing(s: string)
    requires forall k | 0 <= k < |s| :: !IsSpace(s[k])
    ensures TrimRight(TrimLeft(s)) == s
  {
  }

  lemma {:induction false} FindIn(s: string, c: char, rest: string)
    requires forall k | 0 <= k < |s| :: s[k] != c
    ensures Find(s + [c] + rest, c) == |s|
  {
    var t := s + [c] + rest;
    if s != [] {
      assert t[1..] == s[1..] + [c] + rest;
      FindIn(s[1..], c, rest);
    }
  }

  /** A character of a parameter name: neither a delimiter, nor white space, nor '='. */
  predicate NameChar(c: char)
  {
    c == '_' || 'a' <= c <= 'z'
  }

  lemma NamesAreClean(name: string)
    requires name in NAMES
    ensures forall k | 0 <= k < |name| :: NameChar(name[k])
  {
  }

  lemma SplitToken(i: Item)
    requires Printable(i)
    ensures Split(TokenOf(i)) == Some((i.name, i.value))
    ensures forall k | 0 <= k < |TokenOf(i)| :: !IsDelim(TokenOf(i)[k])
  {
    hide TrimLeft, TrimRight, Find;
    var t, n := TokenOf(i), |i.name|;
    NamesAreClean(i.name);
    FindIn(i.name, '=', i.value);
    TrimNothing(i.name);
    TrimNothing(i.value);
    assert t == i.name + ['='] + i.value;
    assert t[..n] == i.name && t[n + 1..] == i.value;
  }

  lemma {:induction false} TokensOfItems(items: seq<Item>)
    requires forall k | 0 <= k < |items| :: Printable(items[k])
    ensures Params(Tokens(PrintItems(items))) == Pairs(items)
    ensures PrintItems(items) == [] || IsDelim(PrintItems(items)[0])
  {
    hide Tokens, Split, IsDelim, TokenOf, NAMES;
    if items == [] {
      NoTokens();
    } else {
      var i, rest := items[0], PrintItems(items[1..]);
      TokensOfItems(items[1..]);
      SplitToken(i);
      assert TokenOf(i) != [] by { TokenNotEmpty(i); }
      OneToken(i.sep, TokenOf(i), rest);
      assert ([TokenOf(i)] + Tokens(rest))[1..] == Tokens(rest);
    }
  }

  lemma NoTokens()
    ensures Tokens([]) == []
  {
  }

  lemma TokenNotEmpty(i: Item)
    ensures TokenOf(i) != []
  {
  }

  /** The parameters parsed from printed ones are exactly those. */
  lemma PrintParse(items: seq<Item>)
    requires forall k | 0 <= k < |items| :: Printable(items[k])
    ensures Tokens(Print(items)) != [] && Tokens(Print(items))[0] == CODEC
    ensures Params(Tokens(Print(items))[1..]) == Pairs(items)
  {
    hide Tokens, Params, PrintItems, IsDelim, CODEC, Pairs, Printable;
    CodecIsOneToken();
    NameThenItems(CODEC, items);
  }

  lemma NameThenItems(name: string, items: seq<Item>)
    requires name != [] && forall k | 0 <= k < |name| :: !IsDelim(name[k])
    requires forall k | 0 <= k < |items| :: Printable(items[k])
    ensures
      var ts := Tokens(name + PrintItems(items));
      ts != [] && ts[0] == name && Params(ts[1..]) == Pairs(items)
  {
    hide Tokens, Params, PrintItems, IsDelim, Pairs, Printable;
    TokensOfItems(items);
    FirstToken(name, PrintItems(items));
  }

  lemma FirstToken(t: string, rest: string)
    requires t != [] && (forall k | 0 <= k < |t| :: !IsDelim(t[k])) && (rest == [] || IsDelim(rest[0]))
    ensures var ts := Tokens(t + rest); ts != [] && ts[0] == t && ts[1..] == Tokens(rest)
  {
    hide Tokens, IsDelim;
    OneToken([], t, rest);
    assert [] + t + rest == t + rest;
  }

  lemma CodecIsOneToken()
    ensures CODEC != [] && forall k | 0 <= k < |CODEC| :: !IsDelim(CODEC[k])
  {
  }

  /** The parameters of a codec as codec_stat enumerates them, up to the index it answers with -1. */
  method StatAll(nc: AbCodec) returns (all: seq<(string, Option<string>)>)
    ensures |all| == |NAMES|
    ensures forall k | 0 <= k < |NAMES| :: all[k] == (NAMES[k], nc.Value(k))
  {
    hide nc.Value;
    all := [];
    var i := 0;
    while true
      invariant 0 <= i == |all| <= |NAMES|
      invariant forall k | 0 <= k < i :: all[k] == (NAMES[k], nc.Value(k))
      decreases |NAMES| - i
    {
      var index, name, value := nc.Stat(i);
      if index < 0 { break; }
      all := all + [(name.value, value)];
      i := i + 1;
    }
  }

  /**
   Print and parse: a codec is created from printed parameters, behind any delimiters, if and
   only if their last values pass the guards, and codec_stat then gives the last value of each.
   */
  method CreatePrinted(items: seq<Item>) returns (nc: AbCodec?, all: seq<(string, Option<string>)>)
    requires forall k | 0 <= k < |items| :: Printable(items[k])
    ensures nc != null <==> Accepts(Pairs(items))
    ensures nc != null ==>
      && fresh(nc) && nc.Valid() && |all| == |NAMES|
      && forall k | 0 <= k < |NAMES| :: all[k] == (NAMES[k], Last(Pairs(items), NAMES[k]))
  {
    hide Tokens, Params, Last, Id, Print, Pairs, Printable;
    PrintParse(items);
    nc := NcodecCreate(Print(items));
    all := [];
    if nc != null { all := StatAll(nc); }
  }

  /**
   An id is read behind white space and a sign, up to the first character that is no digit. It is
   clamped to 64 bits, negated modulo 2^64 after a minus sign unless clamped, and cut to 8 bits.
   */
  lemma IdMeans(space: string, sign: string, n: nat, rest: string)
    requires forall k | 0 <= k < |space| :: space[k] as int == 32 || 9 <= space[k] as int <= 13
    requires sign in {"", "+", "-"} && (rest == [] || !('0' <= rest[0] <= '9'))
    ensures Id(space + sign + Decimal(n) + rest) ==
      if n >= 18446744073709551616 then 255
      else if sign == "-" then (18446744073709551616 - n) % 256
      else n % 256
  {
    hide Decimal, LeadingNumber, TrimLeft;
    var digits := Decimal(n) + rest;
    var t := sign + digits;
    DecimalDigits(n);
    assert IsDigit(digits[0]) by { assert digits[0] == Decimal(n)[0]; }
    assert space + sign + Decimal(n) + rest == space + t;
    TrimSpace(space, t);
    assert (if sign == "" then t else t[1..]) == digits;
    assert LeadingNumber(digits, 0) == n by {
      ReadOn(Decimal(n), rest, 0);
      ReadDecimal(n);
      ReadNothing(rest, n);
    }
  }

  /** Without a digit there the id is 0. */
  lemma NoId(space: string, sign: string, rest: string)
    requires forall k | 0 <= k < |space| :: space[k] as int == 32 || 9 <= space[k] as int <= 13
    requires sign in {"", "+", "-"} && (rest == [] || !('0' <= rest[0] <= '9'))
    requires sign == "" && rest != [] ==> rest[0] != '+' && rest[0] != '-' && !IsSpace(rest[0])
    ensures Id(space + sign + rest) == 0
  {
    hide LeadingNumber, TrimLeft;
    var t := sign + rest;
    assert space + sign + rest == space + t;
    TrimSpace(space, t);
    assert (if sign == "" then t else t[1..]) == rest;
    ReadNothing(rest, 0);
  }

  lemma {:induction false} TrimSpace(space: string, t: string)
    requires (forall k | 0 <= k < |space| :: IsSpace(space[k])) && (t != [] ==> !IsSpace(t[0]))
    ensures TrimLeft(space + t) == t
  {
    if space == [] {
      assert space + t == t;
    } else {
      assert (space + t)[1..] == space[1..] + t;
      TrimSpace(space[1..], t);
    }
  }

  lemma ReadNothing(s: string, sofar: nat)
    requires s == [] || !IsDigit(s[0])
    ensures LeadingNumber(s, sofar) == sofar
  {
  }

  /** An id printed in decimal is the id read. */
  lemma IdRoundTrip(n: nat)
    requires n < 256
    ensures Id(Decimal(n)) == n
  {
    hide Decimal, Id;
    IdMeans("", "", n, "");
    assert "" + "" + Decimal(n) + "" == Decimal(n);
  }

  lemma {:induction false} DecimalDigits(n: nat)
    ensures forall k | 0 <= k < |Decimal(n)| :: IsDigit(Decimal(n)[k])
  {
    if n >= 10 { DecimalDigits(n / 10); }
    assert IsDigit("0123456789"[n % 10]);
  }

  lemma {:induction false} ReadOn(a: string, b: string, sofar: nat)
    requires forall k | 0 <= k < |a| :: IsDigit(a[k])
    ensures LeadingNumber(a + b, sofar) == LeadingNumber(b, LeadingNumber(a, sofar))
  {
    if a == [] {
      assert a + b == b;
    } else {
      assert (a + b)[1..] == a[1..] + b;
      ReadOn(a[1..], b, sofar * 10 + (a[0] as int - '0' as int));
    }
  }

  lemma {:induction false} ReadDecimal(n: nat)
    ensures LeadingNumber(Decimal(n), 0) == n
  {
    var d := ["0123456789"[n % 10]];
    assert d[1..] == [] && d[0] as int - '0' as int == n % 10;
    if n >= 10 {
      ReadDecimal(n / 10);
      DecimalDigits(n / 10);
      ReadOn(Decimal(n / 10), d, 0);
      assert Decimal(n) == Decimal(n / 10) + d;
      assert LeadingNumber(d, n / 10) == n / 10 * 10 + n % 10;
    } else {
      assert Decimal(n) == d;
    }
  }

  //////////////////////////////////////////////////////////////////////////////
  // The MIME types of the repository
  //////////////////////////////////////////////////////////////////////////////

  const CAN_MIMETYPE :=
    "application/x-automotive-bus" + ("; interface=stream" + (";type=frame" + (";bus=can" + (";schema=fbs" + CAN_IDS))))

  const CAN_IDS := ";bus_id=1" + (";node_id=2" + ";interface_id=3")

  const CAN_PARAMS: seq<(string, string)> :=
    [("interface", "stream"), ("type", "frame"), ("bus", "can"), ("schema", "fbs"),
     ("bus_id", "1"), ("node_id", "2"), ("interface_id", "3")]

  const PDU_MIMETYPE :=
    "application/x-automotive-bus"
    + ("; interface=stream" + (";type=pdu" + (";schema=fbs" + (";swc_id=4" + ";ecu_id=5"))))

  const PDU_PARAMS: seq<(string, string)> :=
    [("interface", "stream"), ("type", "pdu"), ("schema", "fbs"), ("swc_id", "4"), ("ecu_id", "5")]

  /** One parameter behind its delimiters, in front of the end or of another one. */
  lemma OneParam(sep: string, name: string, value: string, rest: string)
    requires sep in {";", "; "} && name in NAMES
    requires value != [] && forall k | 0 <= k < |value| :: !IsDelim(value[k]) && !IsSpace(value[k])
    requires rest == [] || rest[0] == ';'
    ensures Params(Tokens(sep + (name + "=" + value) + rest)) == [(name, value)] + Params(Tokens(rest))
  {
    hide Tokens, Split, NAMES;
    var i := Item(sep, name, value);
    SplitToken(i);
    TokenNotEmpty(i);
    OneToken(sep, TokenOf(i), rest);
    assert ([TokenOf(i)] + Tokens(rest))[1..] == Tokens(rest);
  }

  lemma CanTokens()
    ensures Tokens(CAN_MIMETYPE) != [] && Tokens(CAN_MIMETYPE)[0] == "application/x-automotive-bus"
    ensures Params(Tokens(CAN_MIMETYPE)[1..]) == CAN_PARAMS
  {
    hide Tokens, Params;
    CanIdTokens();
    assert CAN_IDS[0] == ';';
    hide CAN_IDS;
    ParamTexts();
    OneParam(";", "schema", "fbs", CAN_IDS);
    OneParam(";", "bus", "can", ";schema=fbs" + CAN_IDS);
    OneParam(";", "type", "frame", ";bus=can" + (";schema=fbs" + CAN_IDS));
    OneParam("; ", "interface", "stream", ";type=frame" + (";bus=can" + (";schema=fbs" + CAN_IDS)));
    CodecIsOneToken();
    FirstToken(CODEC, "; interface=stream" + (";type=frame" + (";bus=can" + (";schema=fbs" + CAN_IDS))));
  }

  lemma CanIdTokens()
    ensures Params(Tokens(CAN_IDS)) == [("bus_id", "1"), ("node_id", "2"), ("interface_id", "3")]
  {
    hide Tokens, Params;
    ParamTexts();
    NoParams();
    OneParam(";", "interface_id", "3", "");
    assert ";interface_id=3" + "" == ";interface_id=3";
    OneParam(";", "node_id", "2", ";interface_id=3");
    OneParam(";", "bus_id", "1", ";node_id=2" + ";interface_id=3");
  }

  lemma PduTokens()
    ensures Tokens(PDU_MIMETYPE) != [] && Tokens(PDU_MIMETYPE)[0] == "application/x-automotive-bus"
    ensures Params(Tokens(PDU_MIMETYPE)[1..]) == PDU_PARAMS
  {
    hide Tokens, Params;
    ParamTexts();
    NoParams();
    OneParam(";", "ecu_id", "5", "");
    assert ";ecu_id=5" + "" == ";ecu_id=5";
    OneParam(";", "swc_id", "4", ";ecu_id=5");
    OneParam(";", "schema", "fbs", ";swc_id=4" + ";ecu_id=5");
    OneParam(";", "type", "pdu", ";schema=fbs" + (";swc_id=4" + ";ecu_id=5"));
    OneParam("; ", "interface", "stream", ";type=pdu" + (";schema=fbs" + (";swc_id=4" + ";ecu_id=5")));
    CodecIsOneToken();
    FirstToken(CODEC, "; interface=stream" + (";type=pdu" + (";schema=fbs" + (";swc_id=4" + ";ecu_id=5"))));
  }

  lemma NoParams()
    ensures Params(Tokens("")) == []
  {
  }

  lemma ParamTexts()
    ensures "; interface=stream" == "; " + ("interface" + "=" + "stream")
    ensures ";type=frame" == ";" + ("type" + "=" + "frame") && ";type=pdu" == ";" + ("type" + "=" + "pdu")
    ensures ";bus=can" == ";" + ("bus" + "=" + "can") && ";schema=fbs" == ";" + ("schema" + "=" + "fbs")
    ensures ";bus_id=1" == ";" + ("bus_id" + "=" + "1") && ";node_id=2" == ";" + ("node_id" + "=" + "2")
    ensures ";interface_id=3" == ";" + ("interface_id" + "=" + "3")
    ensures ";swc_id=4" == ";" + ("swc_id" + "=" + "4") && ";ecu_id=5" == ";" + ("ecu_id" + "=" + "5")
  {
  }

  lemma CanValues()
    ensures Last(CAN_PARAMS, "interface") == Some("stream") && Last(CAN_PARAMS, "type") == Some("frame")
    ensures Last(CAN_PARAMS, "bus") == Some("can") && Last(CAN_PARAMS, "schema") == Some("fbs")
    ensures Last(CAN_PARAMS, "bus_id") == Some("1") && Last(CAN_PARAMS, "node_id") == Some("2")
    ensures Last(CAN_PARAMS, "interface_id") == Some("3")
    ensures Last(CAN_PARAMS, "swc_id") == None && Last(CAN_PARAMS, "ecu_id") == None
  {
    hide Last;
    LastMeans(CAN_PARAMS, 0);
    LastMeans(CAN_PARAMS, 1);
    LastMeans(CAN_PARAMS, 2);
    LastMeans(CAN_PARAMS, 3);
    LastMeans(CAN_PARAMS, 4);
    LastMeans(CAN_PARAMS, 5);
    LastMeans(CAN_PARAMS, 6);
    NeverGiven(CAN_PARAMS, "swc_id");
    NeverGiven(CAN_PARAMS, "ecu_id");
  }

  lemma PduValues()
    ensures Last(PDU_PARAMS, "interface") == Some("stream") && Last(PDU_PARAMS, "type") == Some("pdu")
    ensures Last(PDU_PARAMS, "bus") == None && Last(PDU_PARAMS, "schema") == Some("fbs")
    ensures Last(PDU_PARAMS, "bus_id") == None && Last(PDU_PARAMS, "node_id") == None
    ensures Last(PDU_PARAMS, "interface_id") == None
    ensures Last(PDU_PARAMS, "swc_id") == Some("4") && Last(PDU_PARAMS, "ecu_id") == Some("5")
  {
    hide Last;
    LastMeans(PDU_PARAMS, 0);
    LastMeans(PDU_PARAMS, 1);
    LastMeans(PDU_PARAMS, 2);
    LastMeans(PDU_PARAMS, 3);
    LastMeans(PDU_PARAMS, 4);
    NeverGiven(PDU_PARAMS, "bus");
    NeverGiven(PDU_PARAMS, "bus_id");
    NeverGiven(PDU_PARAMS, "node_id");
    NeverGiven(PDU_PARAMS, "interface_id");
  }

  lemma OneDigitIds()
    ensures Id("1") == 1 && Id("2") == 2 && Id("3") == 3 && Id("4") == 4 && Id("5") == 5
  {
    hide Id;
    OneDigitText();
    IdRoundTrip(1);
    IdRoundTrip(2);
    IdRoundTrip(3);
    IdRoundTrip(4);
    IdRoundTrip(5);
  }

  lemma OneDigitText()
    ensures Decimal(1) == "1" && Decimal(2) == "2" && Decimal(3) == "3" && Decimal(4) == "4" && Decimal(5) == "5"
  {
  }

  /** The MIME type of the example FMU gives a CAN codec with its ids. */
  method CreateCan() returns (nc: AbCodec?)
    ensures nc != null && fresh(nc) && nc.kind == CanFrames
    ensures nc.busId == 1 && nc.nodeId == 2 && nc.interfaceId == 3 && nc.swcId == 0 && nc.ecuId == 0
  {
    hide Tokens, Params, Last, Id, IsDelim, CAN_MIMETYPE, CAN_PARAMS;
    CanTokens();
    CanValues();
    OneDigitIds();
    nc := NcodecCreate(CAN_MIMETYPE);
    assert nc.Value(1) == Last(CAN_PARAMS, NAMES[1]) && nc.Value(4) == Last(CAN_PARAMS, NAMES[4]);
    assert nc.Value(5) == Last(CAN_PARAMS, NAMES[5]) && nc.Value(6) == Last(CAN_PARAMS, NAMES[6]);
    assert nc.Value(7) == Last(CAN_PARAMS, NAMES[7]) && nc.Value(8) == Last(CAN_PARAMS, NAMES[8]);
  }

  /** That of the PDU tests a PDU codec with its. */
  method CreatePdu() returns (nc: AbCodec?)
    ensures nc != null && fresh(nc) && nc.kind == Pdus
    ensures nc.busId == 0 && nc.nodeId == 0 && nc.interfaceId == 0 && nc.swcId == 4 && nc.ecuId == 5
  {
    hide Tokens, Params, Last, Id, IsDelim, PDU_MIMETYPE, PDU_PARAMS;
    PduTokens();
    PduValues();
    OneDigitIds();
    nc := NcodecCreate(PDU_MIMETYPE);
    assert nc.Value(1) == Last(PDU_PARAMS, NAMES[1]) && nc.Value(4) == Last(PDU_PARAMS, NAMES[4]);
    assert nc.Value(5) == Last(PDU_PARAMS, NAMES[5]) && nc.Value(6) == Last(PDU_PARAMS, NAMES[6]);
    assert nc.Value(7) == Last(PDU_PARAMS, NAMES[7]) && nc.Value(8) == Last(PDU_PARAMS, NAMES[8]);
  }
}
