/** The share token (`encodeTeamData` / `decodeTeamData`, src/app/page.tsx)
    and the reading of a shared team from the `team` query parameter when the
    page loads. */
module ShareToken {
  import opened Wrappers
  import opened Players
  import opened Json
  import Base64
  import opened Persistence

  // ---------------------------------------------------------------------
  // Encoding
  // ---------------------------------------------------------------------

  /** `JSON.stringify({p, c, w})`: the compact object, without spaces. */
  function WriteCompact(s: StoredState): string {
    "{\"p\":" + WriteStrings(s.selectedPlayerIds)
    + ",\"c\":" + WriteNullable(s.captainId)
    + ",\"w\":" + WriteNullable(s.wicketKeeperId) + "}"
  }

  /** Every id the stored state carries is a binary string. */
  predicate IdsLatin1(s: StoredState) {
    && (forall i | 0 <= i < |s.selectedPlayerIds| :: Base64.Latin1(s.selectedPlayerIds[i]))
    && (s.captainId.Some? ==> Base64.Latin1(s.captainId.value))
    && (s.wicketKeeperId.Some? ==> Base64.Latin1(s.wicketKeeperId.value))
  }

  /** `encodeTeamData`: `btoa` of the compact JSON. `btoa` throws (`None`)
      exactly when some id has a character above U+00FF. */
  function EncodeTeamData(s: StoredState): (r: Option<string>)
    ensures r.Some? <==> IdsLatin1(s)
    ensures r.Some? ==> |r.value| > 0 && Base64.Latin1(r.value)
  {
    WriteCompactLatin1(s);
    Base64.Btoa(WriteCompact(s))
  }

  // ---------------------------------------------------------------------
  // Decoding
  // ---------------------------------------------------------------------

  /** What `decodeTeamData` returns. The declared type is only an assertion,
      so each field holds whatever JSON value the token carried. */
  datatype Decoded = Decoded(selectedPlayerIds: Value, captainId: Value, wicketKeeperId: Value)

  /** `x || fallback` */
  function OrElse(x: Option<Value>, fallback: Value): (r: Value)
    ensures x.Some? && Truthy(x.value) ==> r == x.value
    ensures !(x.Some? && Truthy(x.value)) ==> r == fallback
  {
    if x.Some? && Truthy(x.value) then x.value else fallback
  }

  /** The object built from the parsed token; reading a property of `null`
      throws, which the `catch` turns into `None`. */
  function FromCompact(v: Value): (r: Option<Decoded>)
    ensures r.None? <==> v.JNull?
    ensures r.Some? ==> Truthy(r.value.selectedPlayerIds)
    ensures r.Some? ==> r.value.captainId.JNull? || Truthy(r.value.captainId)
    ensures r.Some? ==> r.value.wicketKeeperId.JNull? || Truthy(r.value.wicketKeeperId)
    ensures Property(v, "p").Some? && Truthy(Property(v, "p").value) ==>
      r.Some? && r.value.selectedPlayerIds == Property(v, "p").value
    ensures Property(v, "c").Some? && Truthy(Property(v, "c").value) ==>
      r.Some? && r.value.captainId == Property(v, "c").value
    ensures Property(v, "w").Some? && Truthy(Property(v, "w").value) ==>
      r.Some? && r.value.wicketKeeperId == Property(v, "w").value
  {
    if v.JNull? then None
    else Some(Decoded(
      OrElse(Property(v, "p"), JArray([])),
      OrElse(Property(v, "c"), JNull),
      OrElse(Property(v, "w"), JNull)))
  }

  /** `decodeTeamData`: `atob`, then `JSON.parse`, then the defaults; any
      exception on the way is `None`. */
  function DecodeTeamData(encoded: string): (r: Option<Decoded>)
    ensures Base64.Atob(encoded).None? ==> r.None?
    ensures r.Some? ==> Parse(Base64.Atob(encoded).value).Some?
  {
    match Base64.Atob(encoded)
    case None => None
    case Some(text) =>
      match Parse(text)
      case None => None
      case Some(v) => FromCompact(v)
  }

  /** A string or `null`. */
  predicate IsNullableString(v: Value) {
    v.JNull? || v.JString?
  }

  /** The decoded object read at its declared type `StoredState`: an array of
      strings and two strings or nulls; `None` for any other shape. */
  function AsStoredState(d: Decoded): (r: Option<StoredState>)
    ensures r.Some? <==>
      && d.selectedPlayerIds.JArray?
      && (forall i | 0 <= i < |d.selectedPlayerIds.items| :: d.selectedPlayerIds.items[i].JString?)
      && IsNullableString(d.captainId) && IsNullableString(d.wicketKeeperId)
    ensures r.Some? ==> DecodedOf(r.value) == d
  {
    if && d.selectedPlayerIds.JArray?
       && (forall i | 0 <= i < |d.selectedPlayerIds.items| :: d.selectedPlayerIds.items[i].JString?)
       && IsNullableString(d.captainId) && IsNullableString(d.wicketKeeperId)
    then
      StringsOfStringIds(d.selectedPlayerIds.items);
      Some(StoredState(
      StringIds(d.selectedPlayerIds.items),
      if d.captainId.JString? then Some(d.captainId.s) else None,
      if d.wicketKeeperId.JString? then Some(d.wicketKeeperId.s) else None))
    else None
  }

  /** The token decoded to a `StoredState`. */
  function DecodeStored(encoded: string): (r: Option<StoredState>)
    ensures r.Some? ==> DecodeTeamData(encoded) == Some(DecodedOf(r.value))
  {
    match DecodeTeamData(encoded)
    case None => None
    case Some(d) => AsStoredState(d)
  }

  /** `id || null` on a role id. */
  function NonEmpty(id: Option<string>): (r: Option<string>)
    ensures r.Some? <==> id.Some? && id.value != ""
    ensures r.Some? ==> r == id
  {
    if id.Some? && id.value != "" then id else None
  }

  /** What survives a round trip: empty role ids become `null`. */
  function Normalize(s: StoredState): StoredState {
    StoredState(s.selectedPlayerIds, NonEmpty(s.captainId), NonEmpty(s.wicketKeeperId))
  }

  /** The JSON values a stored state is written as. */
  function DecodedOf(s: StoredState): Decoded {
    Decoded(JArray(Strings(s.selectedPlayerIds)), Nullable(s.captainId), Nullable(s.wicketKeeperId))
  }

  // ---------------------------------------------------------------------
  // The shared team
  // ---------------------------------------------------------------------

  /** The read-only team offered to the visitor of a shared link. */
  datatype SharedTeam = SharedTeam(players: seq<Player>, captain: Option<Player>, wicketKeeper: Option<Player>)

  /** What the load effect does with the `team` parameter: nothing, show a
      shared team, or throw a `TypeError` (calling `.map` on a `p` that is
      not an array). The throw happens outside the `try` around the storage
      load, so after it neither the visitor's saved team is restored nor the
      page marked loaded. */
  datatype SharedLoad = NoSharedTeam | Show(team: SharedTeam) | TypeError

  /** The shared-team part of the load effect, for the value of the `team`
      query parameter (`None` when absent). A token that does not decode
      shows nothing; a decoded `p` that is not an array throws; otherwise the
      string ids the roster knows are shown in order, when there are any,
      with the roles their values name. */
  function LoadShared(teamParam: Option<string>, roster: seq<Player>): (r: SharedLoad)
    ensures teamParam.None? || teamParam.value == "" ==> r == NoSharedTeam
    ensures r.Show? ==> |r.team.players| > 0 && forall p | p in r.team.players :: p in roster
    ensures r.Show? ==> (r.team.captain.Some? ==> r.team.captain.value in roster)
    ensures r.Show? ==> (r.team.wicketKeeper.Some? ==> r.team.wicketKeeper.value in roster)
    ensures teamParam.Some? && teamParam.value != "" && DecodeTeamData(teamParam.value).None? ==> r == NoSharedTeam
    ensures r == TypeError <==>
      && teamParam.Some? && teamParam.value != "" && DecodeTeamData(teamParam.value).Some?
      && !DecodeTeamData(teamParam.value).value.selectedPlayerIds.JArray?
    ensures teamParam.Some? && teamParam.value != "" && DecodeTeamData(teamParam.value).Some? ==>
      var d := DecodeTeamData(teamParam.value).value;
      d.selectedPlayerIds.JArray? ==>
        var players := ResolveIds(StringIds(d.selectedPlayerIds.items), roster);
        && (r.Show? <==> |players| > 0)
        && (r.Show? ==> r.team == SharedTeam(players, RoleOfValue(d.captainId, roster), RoleOfValue(d.wicketKeeperId, roster)))
  {
    if teamParam.None? || teamParam.value == "" then NoSharedTeam
    else
      match DecodeTeamData(teamParam.value)
      case None => NoSharedTeam
      case Some(d) =>
        if !d.selectedPlayerIds.JArray? then TypeError
        else
          var players := ResolveIds(StringIds(d.selectedPlayerIds.items), roster);
          if |players| > 0 then
            Show(SharedTeam(players, RoleOfValue(d.captainId, roster), RoleOfValue(d.wicketKeeperId, roster)))
          else NoSharedTeam
  }

  // ---------------------------------------------------------------------
  // Binary strings
  // ---------------------------------------------------------------------

  lemma Latin1Concat(a: string, b: string)
    ensures Base64.Latin1(a + b) <==> Base64.Latin1(a) && Base64.Latin1(b)
  {
    if Base64.Latin1(a + b) {
      forall i | 0 <= i < |a| ensures a[i] as int < 256 {
        assert a[i] == (a + b)[i];
      }
      forall i | 0 <= i < |b| ensures b[i] as int < 256 {
        assert b[i] == (a + b)[|a| + i];
      }
    }
  }

  lemma EscapeCharLatin1(c: char)
    ensures Base64.Latin1(EscapeChar(c)) <==> c as int < 256
  {
    var e := EscapeChar(c);
    if c == '"' || c == '\\' || c as int == 8 || c == '\t' || c == '\n' || c as int == 12 || c == '\r' {
      assert |e| == 2 && e[0] == '\\';
      assert e[1] == 'b' || e[1] == 'f' || e[1] == 'n' || e[1] == 'r' || e[1] == 't' || e[1] == '"' || e[1] == '\\';
    } else if c < ' ' {
      assert e == ['\\', 'u', '0', '0', e[4], e[5]];
      assert IsHex(e[4]) && IsHex(e[5]);
    } else {
      assert e == [c];
      if Base64.Latin1(e) {
        assert e[0] as int < 256;
      }
    }
  }

  /** Escaping keeps a string binary exactly when it was binary. */
  lemma {:induction false} EscapeLatin1(x: string)
    ensures Base64.Latin1(Escape(x)) <==> Base64.Latin1(x)
    decreases |x|
  {
    if |x| > 0 {
      EscapeCharLatin1(x[0]);
      EscapeLatin1(x[1..]);
      Latin1Concat(EscapeChar(x[0]), Escape(x[1..]));
      assert x == [x[0]] + x[1..];
      Latin1Concat([x[0]], x[1..]);
    }
  }

  lemma QuoteLatin1(x: string)
    ensures Base64.Latin1(Quote(x)) <==> Base64.Latin1(x)
  {
    EscapeLatin1(x);
    Latin1Concat("\"", Escape(x));
    Latin1Concat("\"" + Escape(x), "\"");
  }

  lemma {:induction false} JoinQuotedLatin1(xs: seq<string>)
    ensures Base64.Latin1(JoinQuoted(xs)) <==> forall i | 0 <= i < |xs| :: Base64.Latin1(xs[i])
    decreases |xs|
  {
    if |xs| == 1 {
      QuoteLatin1(xs[0]);
    } else if |xs| > 1 {
      QuoteLatin1(xs[0]);
      JoinQuotedLatin1(xs[1..]);
      Latin1Concat(Quote(xs[0]), ",");
      Latin1Concat(Quote(xs[0]) + ",", JoinQuoted(xs[1..]));
      assert forall i | 1 <= i < |xs| :: xs[i] == xs[1..][i - 1];
    }
  }

  lemma NullableLatin1(o: Option<string>)
    ensures Base64.Latin1(WriteNullable(o)) <==> (o.Some? ==> Base64.Latin1(o.value))
  {
    if o.Some? {
      QuoteLatin1(o.value);
    }
  }

  lemma WriteStringsLatin1(xs: seq<string>)
    ensures Base64.Latin1(WriteStrings(xs)) <==> forall i | 0 <= i < |xs| :: Base64.Latin1(xs[i])
  {
    JoinQuotedLatin1(xs);
    Latin1Concat("[", JoinQuoted(xs));
    Latin1Concat("[" + JoinQuoted(xs), "]");
  }

  /** The compact JSON is binary exactly when every id is. */
  lemma WriteCompactLatin1(s: StoredState)
    ensures Base64.Latin1(WriteCompact(s)) <==> IdsLatin1(s)
  {
    var k1, k2, k3, k4 := "{\"p\":", ",\"c\":", ",\"w\":", "}";
    var a := WriteStrings(s.selectedPlayerIds);
    var c := WriteNullable(s.captainId);
    var w := WriteNullable(s.wicketKeeperId);
    assert Base64.Latin1(k1) && Base64.Latin1(k2) && Base64.Latin1(k3) && Base64.Latin1(k4);
    WriteStringsLatin1(s.selectedPlayerIds);
    NullableLatin1(s.captainId);
    NullableLatin1(s.wicketKeeperId);
    var x1 := k1 + a;
    Latin1Concat(k1, a);
    var x2 := x1 + k2;
    Latin1Concat(x1, k2);
    var x3 := x2 + c;
    Latin1Concat(x2, c);
    var x4 := x3 + k3;
    Latin1Concat(x3, k3);
    var x5 := x4 + w;
    Latin1Concat(x4, w);
    Latin1Concat(x5, k4);
    assert WriteCompact(s) == x5 + k4;
  }

  // ---------------------------------------------------------------------
  // Reading the compact JSON back
  // ---------------------------------------------------------------------

  /** The one-letter keys need no escaping. */
  lemma QuoteKey(k: char)
    requires k == 'p' || k == 'c' || k == 'w'
    ensures Quote([k]) == ['"', k, '"']
  {
    assert [k][1..] == "";
    assert Escape([k]) == [k];
  }

  /** The text of the last member and the closing brace. */
  function TailW(w: Option<string>): string {
    Quote("w") + (":" + WriteNullable(w) + "}")
  }

  /** The text of the last two members and the closing brace. */
  function TailC(c: Option<string>, w: Option<string>): string {
    Quote("c") + (":" + WriteNullable(c) + "," + TailW(w))
  }

  lemma Regroup(a: string, b: string, c: string)
    ensures a + b + c == a + (b + c)
  {
  }

  lemma TailWText(w: Option<string>)
    ensures ",\"w\":" + WriteNullable(w) + "}" == "," + TailW(w)
  {
    QuoteKey('w');
  }

  lemma KeyedText(C: string, T: string)
    ensures ",\"c\":" + C + "," + T == "," + ("\"c\"" + (":" + C + "," + T))
  {
  }

  lemma TailCText(c: Option<string>, w: Option<string>)
    ensures ",\"c\":" + WriteNullable(c) + "," + TailW(w) == "," + TailC(c, w)
  {
    QuoteKey('c');
    KeyedText(WriteNullable(c), TailW(w));
  }

  lemma HeadText(A: string, tc: string)
    ensures "{" + (Quote("p") + (":" + A + "," + tc)) == "{\"p\":" + A + ("," + tc)
  {
    QuoteKey('p');
  }

  /** The compact JSON with its tail grouped. */
  lemma CompactRegroup(s: StoredState)
    ensures WriteCompact(s) == "{\"p\":" + WriteStrings(s.selectedPlayerIds)
      + (",\"c\":" + WriteNullable(s.captainId) + (",\"w\":" + WriteNullable(s.wicketKeeperId) + "}"))
  {
    var x := "{\"p\":" + WriteStrings(s.selectedPlayerIds);
    var C, W := WriteNullable(s.captainId), WriteNullable(s.wicketKeeperId);
    Regroup(x + ",\"c\":" + C, ",\"w\":" + W, "}");
    Regroup(x + ",\"c\":", C, ",\"w\":" + W + "}");
    Regroup(x, ",\"c\":", C + (",\"w\":" + W + "}"));
    Regroup(",\"c\":", C, ",\"w\":" + W + "}");
  }

  /** The compact JSON as an opening brace and its members. */
  lemma CompactShape(s: StoredState)
    ensures WriteCompact(s) ==
      "{" + (Quote("p") + (":" + WriteStrings(s.selectedPlayerIds) + "," + TailC(s.captainId, s.wicketKeeperId)))
  {
    var C, W := WriteNullable(s.captainId), WriteNullable(s.wicketKeeperId);
    CompactRegroup(s);
    TailWText(s.wicketKeeperId);
    Regroup(",\"c\":" + C, ",\"w\":" + W, "}");
    Regroup(",\"c\":" + C, ",", TailW(s.wicketKeeperId));
    TailCText(s.captainId, s.wicketKeeperId);
    HeadText(WriteStrings(s.selectedPlayerIds), TailC(s.captainId, s.wicketKeeperId));
  }

  /** The members of an object as the compact JSON holds them. */
  function CompactMembers(s: StoredState): seq<(string, Value)> {
    [("p", JArray(Strings(s.selectedPlayerIds))), ("c", Nullable(s.captainId)), ("w", Nullable(s.wicketKeeperId))]
  }

  lemma MembersW(w: Option<string>)
    ensures Members(TailW(w)) == Some(Parsed([("w", Nullable(w))], ""))
  {
    ParseNullable(w, "}");
    SkipWsStops("}");
    MemberLast("w", WriteNullable(w), Nullable(w));
  }

  lemma MembersC(c: Option<string>, w: Option<string>)
    ensures Members(TailC(c, w)) == Some(Parsed([("c", Nullable(c)), ("w", Nullable(w))], ""))
  {
    var after := TailW(w);
    ParseNullable(c, "," + after);
    SkipWsStops("," + after);
    MemberNext("c", WriteNullable(c), Nullable(c), after);
    MembersW(w);
    assert TailC(c, w) == Quote("c") + (":" + WriteNullable(c) + "," + after);
    assert [("c", Nullable(c))] + [("w", Nullable(w))] == [("c", Nullable(c)), ("w", Nullable(w))];
  }

  lemma MembersP(s: StoredState)
    ensures Members(Quote("p") + (":" + WriteStrings(s.selectedPlayerIds) + "," + TailC(s.captainId, s.wicketKeeperId)))
      == Some(Parsed(CompactMembers(s), ""))
  {
    var after := TailC(s.captainId, s.wicketKeeperId);
    ParseStrings(s.selectedPlayerIds, "," + after);
    SkipWsStops("," + after);
    MemberNext("p", WriteStrings(s.selectedPlayerIds), JArray(Strings(s.selectedPlayerIds)), after);
    MembersC(s.captainId, s.wicketKeeperId);
    assert [("p", JArray(Strings(s.selectedPlayerIds)))] + [("c", Nullable(s.captainId)), ("w", Nullable(s.wicketKeeperId))]
      == CompactMembers(s);
  }

  /** `JSON.parse(JSON.stringify(compact))` gives the object back. */
  lemma ParseCompact(s: StoredState)
    ensures Parse(WriteCompact(s)) == Some(JObject(CompactMembers(s)))
  {
    var body := Quote("p") + (":" + WriteStrings(s.selectedPlayerIds) + "," + TailC(s.captainId, s.wicketKeeperId));
    CompactShape(s);
    MembersP(s);
    QuoteKey('p');
    assert body + "" == body;
    ParseObjectText(body, CompactMembers(s), "");
    assert "{" + body + "" == WriteCompact(s);
  }

  /** Reading the properties with their defaults. */
  lemma FromCompactMembers(s: StoredState)
    ensures FromCompact(JObject(CompactMembers(s))) == Some(DecodedOf(Normalize(s)))
  {
    var ms := CompactMembers(s);
    assert ms[..2] == [ms[0], ms[1]] && ms[..2][..1] == [ms[0]];
    assert "w" != "p" && "w" != "c" && "c" != "p";
    assert Lookup(ms, "p") == Some(JArray(Strings(s.selectedPlayerIds)));
    assert Lookup(ms, "c") == Some(Nullable(s.captainId));
    assert Lookup(ms, "w") == Some(Nullable(s.wicketKeeperId));
  }

  /** Decoding an encoding gives the JSON values of the stored state, with
      empty role ids turned into `null`. */
  lemma DecodeEncode(s: StoredState)
    requires IdsLatin1(s)
    ensures EncodeTeamData(s).Some?
    ensures DecodeTeamData(EncodeTeamData(s).value) == Some(DecodedOf(Normalize(s)))
  {
    WriteCompactLatin1(s);
    Base64.AtobBtoa(WriteCompact(s));
    ParseCompact(s);
    FromCompactMembers(s);
  }

  /** The string elements of an array of strings are all of them, in order. */
  lemma {:induction false} StringIdsAll(items: seq<Value>)
    requires forall i | 0 <= i < |items| :: items[i].JString?
    ensures |StringIds(items)| == |items|
    ensures forall i | 0 <= i < |items| :: StringIds(items)[i] == items[i].s
    decreases |items|
  {
    if |items| > 0 {
      var tail := items[1..];
      assert forall i | 0 <= i < |tail| :: tail[i] == items[i + 1];
      StringIdsAll(tail);
      var r := StringIds(items);
      assert r == [items[0].s] + StringIds(tail);
      forall i | 0 <= i < |items| ensures r[i] == items[i].s {
        if i > 0 {
          assert r[i] == StringIds(tail)[i - 1];
        }
      }
    }
  }

  /** An array of strings is written back from its string elements. */
  lemma StringsOfStringIds(items: seq<Value>)
    ensures (forall i | 0 <= i < |items| :: items[i].JString?) ==> Strings(StringIds(items)) == items
  {
    if forall i | 0 <= i < |items| :: items[i].JString? {
      StringIdsAll(items);
      var w := Strings(StringIds(items));
      forall i | 0 <= i < |items| ensures w[i] == items[i] {
        assert w[i] == JString(items[i].s);
      }
    }
  }

  /** Reading the JSON values of a stored state at the declared type gives
      the stored state. */
  lemma AsStoredStateOf(s: StoredState)
    ensures AsStoredState(DecodedOf(s)) == Some(s)
  {
    StringIdsOfStrings(s.selectedPlayerIds);
  }

  /** `decodeTeamData(encodeTeamData(s))` is `s` with empty role ids made
      `null`, and is `s` itself when no role id is empty. */
  lemma TokenRoundTrip(s: StoredState)
    requires IdsLatin1(s)
    ensures EncodeTeamData(s).Some?
    ensures DecodeStored(EncodeTeamData(s).value) == Some(Normalize(s))
    ensures (s.captainId.Some? ==> s.captainId.value != "") && (s.wicketKeeperId.Some? ==> s.wicketKeeperId.value != "")
            ==> DecodeStored(EncodeTeamData(s).value) == Some(s)
  {
    DecodeEncode(s);
    AsStoredStateOf(Normalize(s));
  }

  // ---------------------------------------------------------------------
  // Defaults and failures
  // ---------------------------------------------------------------------

  /** A token whose object has no `p`, or a falsy one, decodes to an empty
      list; likewise a missing or falsy `c` or `w` decodes to `null`. A truthy
      member is kept as it is, whatever its type. */
  lemma FalsyDefaults(text: string, ms: seq<(string, Value)>)
    requires Base64.Latin1(text)
    requires Parse(text) == Some(JObject(ms))
    ensures Base64.Btoa(text).Some?
    ensures DecodeTeamData(Base64.Btoa(text).value).Some?
    ensures Lookup(ms, "p").None? || !Truthy(Lookup(ms, "p").value)
            ==> DecodeTeamData(Base64.Btoa(text).value).value.selectedPlayerIds == JArray([])
    ensures Lookup(ms, "c").None? || !Truthy(Lookup(ms, "c").value)
            ==> DecodeTeamData(Base64.Btoa(text).value).value.captainId == JNull
    ensures Lookup(ms, "w").None? || !Truthy(Lookup(ms, "w").value)
            ==> DecodeTeamData(Base64.Btoa(text).value).value.wicketKeeperId == JNull
    ensures Lookup(ms, "p").Some? && Truthy(Lookup(ms, "p").value)
            ==> DecodeTeamData(Base64.Btoa(text).value).value.selectedPlayerIds == Lookup(ms, "p").value
    ensures Lookup(ms, "c").Some? && Truthy(Lookup(ms, "c").value)
            ==> DecodeTeamData(Base64.Btoa(text).value).value.captainId == Lookup(ms, "c").value
    ensures Lookup(ms, "w").Some? && Truthy(Lookup(ms, "w").value)
            ==> DecodeTeamData(Base64.Btoa(text).value).value.wicketKeeperId == Lookup(ms, "w").value
  {
    Base64.AtobBtoa(text);
  }

  /** A token that is valid Base64 of `null` is refused: reading `null.p`
      throws inside the `try`. */
  lemma NullPayloadRefused()
    ensures Base64.Btoa("null").Some?
    ensures DecodeTeamData(Base64.Btoa("null").value) == None
  {
    assert Base64.Latin1("null");
    Base64.AtobBtoa("null");
    ParseNull("");
    assert "null" + "" == "null";
  }

  /** A token that is not Base64 is refused. */
  lemma BadBase64Refused()
    ensures DecodeTeamData("A") == None
  {
    assert Base64.StripWhitespace("A") == "A";
  }

  // ---------------------------------------------------------------------
  // The shared team
  // ---------------------------------------------------------------------

  /** A token whose `p` is truthy but not an array makes the load effect
      throw instead of showing nothing. */
  lemma NonArrayListThrows(text: string, ms: seq<(string, Value)>, roster: seq<Player>)
    requires Base64.Latin1(text) && |text| > 0
    requires Parse(text) == Some(JObject(ms))
    requires Lookup(ms, "p").Some? && Truthy(Lookup(ms, "p").value) && !Lookup(ms, "p").value.JArray?
    ensures Base64.Btoa(text).Some?
    ensures LoadShared(Some(Base64.Btoa(text).value), roster) == TypeError
  {
    Base64.AtobBtoa(text);
  }

  /** Sharing a team and opening the link shows the same players in the same
      order with the same captain and keeper, when the team is non-empty, its
      players and role holders are roster entries with binary ids, and the role
      holders' ids are non-empty. */
  lemma ShareRoundTrip(st: Selection.State, roster: seq<Player>)
    requires UniqueIds(roster)
    requires |st.selected| > 0 && forall p | p in st.selected :: p in roster
    requires st.captain.Some? ==> st.captain.value in roster && st.captain.value.id != ""
    requires st.wicketKeeper.Some? ==> st.wicketKeeper.value in roster && st.wicketKeeper.value.id != ""
    requires IdsLatin1(ToStored(st))
    ensures EncodeTeamData(ToStored(st)).Some?
    ensures LoadShared(EncodeTeamData(ToStored(st)), roster)
            == Show(SharedTeam(st.selected, st.captain, st.wicketKeeper))
  {
    var s := ToStored(st);
    DecodeEncode(s);
    assert Normalize(s) == s;
    var d := DecodedOf(s);
    var players := ResolveIds(StringIds(d.selectedPlayerIds.items), roster);
    assert players == st.selected by {
      StringIdsOfStrings(s.selectedPlayerIds);
      assert s.selectedPlayerIds == Ids(st.selected);
      ResolveIdsOfPlayers(st.selected, roster);
    }
    assert RoleOfValue(d.captainId, roster) == st.captain by {
      RoleRoundTrip(st.captain, roster);
      RoleOfNullable(s.captainId, roster);
    }
    assert RoleOfValue(d.wicketKeeperId, roster) == st.wicketKeeper by {
      RoleRoundTrip(st.wicketKeeper, roster);
      RoleOfNullable(s.wicketKeeperId, roster);
    }
  }
  /** Whatever token opens the page, a shown team lists exactly the string ids
      of `p` that the roster knows, in their order, duplicates included. */
  lemma SharedKnownIds(encoded: string, roster: seq<Player>)
    requires DecodeTeamData(encoded).Some? && DecodeTeamData(encoded).value.selectedPlayerIds.JArray?
    ensures var r := LoadShared(Some(encoded), roster);
      r.Show? ==> Ids(r.team.players) == KnownIds(StringIds(DecodeTeamData(encoded).value.selectedPlayerIds.items), roster)
  {
    ResolveKnownIds(StringIds(DecodeTeamData(encoded).value.selectedPlayerIds.items), roster);
  }


  /** Character `4g + 3` of a token encodes the low six bits of character
      `3g + 2` of the compact JSON. */
  lemma TokenGroupChar(s: StoredState, g: nat)
    requires IdsLatin1(s)
    requires 3 * g + 3 <= |WriteCompact(s)|
    ensures EncodeTeamData(s).Some?
    ensures 4 * g + 3 < |EncodeTeamData(s).value|
    ensures EncodeTeamData(s).value[4 * g + 3] == Base64.CharOf(WriteCompact(s)[3 * g + 2] as int % 64)
  {
    WriteCompactLatin1(s);
    var bs := Base64.ToBytes(WriteCompact(s));
    assert EncodeTeamData(s).value == Base64.Encode(bs);
    Base64.EncodeGroupChar(bs, g);
  }

  /** The compact JSON is an object whose first member is the array `p`. */
  lemma CompactBraces(s: StoredState)
    ensures |WriteCompact(s)| > 6 && WriteCompact(s)[..6] == "{\"p\":[" && WriteCompact(s)[|WriteCompact(s)| - 1] == '}'
  {
    WrittenShape("", None, s.selectedPlayerIds);
    var k1, w := "{\"p\":", WriteStrings(s.selectedPlayerIds);
    var t := WriteCompact(s);
    assert t[..|k1| + |w|] == k1 + w;
    assert t[..6] == (k1 + w)[..6];
  }

  /** Two plain characters open a string literal unchanged. */
  lemma QuoteStart(id: string)
    requires |id| >= 2 && id[0] >= ' ' && id[1] >= ' '
    requires id[0] != '"' && id[0] != '\\' && id[1] != '"' && id[1] != '\\'
    ensures |Quote(id)| > 2 && Quote(id)[1] == id[0] && Quote(id)[2] == id[1]
  {
    var e1 := Escape(id[1..]);
    assert e1 == EscapeChar(id[1..][0]) + Escape(id[1..][1..]);
    assert EscapeChar(id[1]) == [id[1]];
    assert e1[0] == id[1];
    var e := Escape(id);
    assert e == EscapeChar(id[0]) + e1;
    assert EscapeChar(id[0]) == [id[0]];
    assert e[0] == id[0] && e[1] == id[1];
    assert Quote(id) == "\"" + e + "\"";
    WrittenShape(id, None, []);
  }

  /** The array text starts with `[` and the first string literal. */
  lemma WriteStringsStart(ids: seq<string>)
    requires |ids| > 0
    ensures |WriteStrings(ids)| > |Quote(ids[0])|
    ensures WriteStrings(ids)[1..|Quote(ids[0])| + 1] == Quote(ids[0])
  {
    var q := Quote(ids[0]);
    var j := JoinQuoted(ids);
    if |ids| > 1 {
      assert j == q + "," + JoinQuoted(ids[1..]);
      assert j[..|q|] == q;
    }
    assert j[..|q|] == q;
    var w := WriteStrings(ids);
    assert w == "[" + j + "]";
    assert w[1..|q| + 1] == j[..|q|];
  }

  /** The first id starts at character 7 of the compact JSON. */
  lemma CompactFirstId(s: StoredState, id: string)
    requires |s.selectedPlayerIds| > 0 && s.selectedPlayerIds[0] == id
    requires |id| >= 2 && id[0] >= ' ' && id[1] >= ' '
    requires id[0] != '"' && id[0] != '\\' && id[1] != '"' && id[1] != '\\'
    ensures |WriteCompact(s)| > 8 && WriteCompact(s)[7] == id[0] && WriteCompact(s)[8] == id[1]
  {
    QuoteStart(id);
    WriteStringsStart(s.selectedPlayerIds);
    var q := Quote(id);
    var w := WriteStrings(s.selectedPlayerIds);
    assert w[2] == w[1..|q| + 1][1] == id[0];
    assert w[3] == w[1..|q| + 1][2] == id[1];
    var k1 := "{\"p\":";
    var text := WriteCompact(s);
    assert text[..|k1| + |w|] == k1 + w;
    assert text[7] == (k1 + w)[7];
    assert text[8] == (k1 + w)[8];
  }

  /** The token is standard Base64, not its URL-safe variant: a team whose
      first id is `a>` gets a token with `+` at position 11, which a query
      string reads back as a space. */
  lemma TokenNotUrlSafe(p: Player)
    requires p.id == "a>"
    ensures EncodeTeamData(ToStored(Selection.State([p], None, None, false))).Some?
    ensures EncodeTeamData(ToStored(Selection.State([p], None, None, false))).value[11] == '+'
  {
    var s := ToStored(Selection.State([p], None, None, false));
    assert s.selectedPlayerIds == ["a>"];
    assert IdsLatin1(s);
    CompactFirstId(s, "a>");
    TokenGroupChar(s, 2);
  }
}
