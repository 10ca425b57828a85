/** The client address and scheme behind trusted proxies (web/security.go). */
module TrustedProxy {
  import opened Options
  import opened GoStrings

  /** A parsed address with IPv4-mapped forms undone; NoAddr is the invalid zero value. */
  datatype Addr = NoAddr | Addr(value: nat)

  /** Whether a declared network contains a valid address. */
  type Network = nat -> bool

  /** netip.ParseAddr followed by Unmap. */
  type Parser = string -> Option<nat>

  datatype Config = Config(networks: seq<Network>, trustAnyPeer: bool)

  predicate Trusted(networks: seq<Network>, address: Addr) {
    address.Addr? && exists i :: 0 <= i < |networks| && networks[i](address.value)
  }

  method PrefixContains(networks: seq<Network>, address: Addr) returns (contained: bool)
    ensures contained <==> Trusted(networks, address)
  {
    if address.NoAddr? {
      return false;
    }
    for i := 0 to |networks|
      invariant forall j :: 0 <= j < i ==> !networks[j](address.value)
    {
      if networks[i](address.value) {
        return true;
      }
    }
    return false;
  }

  // ---------------------------------------------------------------- header lines and their entries

  /** Every line of a repeated header, joined. */
  function ForwardedHeader(lines: seq<string>): string {
    Join(lines, ",")
  }

  /** The comma-separated entries of all lines, nearest hop last. */
  function Entries(lines: seq<string>): seq<string> {
    if lines == [] then [] else Split(lines[0], ',') + Entries(lines[1..])
  }

  /** Splitting the joined lines gives the entries of each line in turn. */
  lemma {:induction false} SplitJoinedLines(lines: seq<string>)
    requires lines != []
    ensures Split(ForwardedHeader(lines), ',') == Entries(lines)
  {
    if |lines| == 1 {
      assert Entries(lines[1..]) == [];
    } else {
      SplitJoinedLines(lines[1..]);
      SplitConcat(lines[0], ForwardedHeader(lines[1..]), ',');
    }
  }

  lemma {:induction false} EntriesConcat(a: seq<string>, b: seq<string>)
    ensures Entries(a + b) == Entries(a) + Entries(b)
  {
    if a == [] {
      assert a + b == b;
    } else {
      EntriesConcat(a[1..], b);
      assert (a + b)[1..] == a[1..] + b;
    }
  }

  function Blank(entry: string): bool {
    TrimSpace(entry) == ""
  }

  // ---------------------------------------------------------------- addresses

  predicate AllParse(entries: seq<string>, parse: Parser) {
    forall i :: 0 <= i < |entries| ==> parse(TrimSpace(entries[i])).Some?
  }

  function Parsed(entries: seq<string>, parse: Parser): (addresses: seq<Addr>)
    requires AllParse(entries, parse)
    ensures |addresses| == |entries|
    ensures forall i :: 0 <= i < |entries| ==> addresses[i] == Addr(parse(TrimSpace(entries[i])).value)
  {
    if entries == [] then []
    else [Addr(parse(TrimSpace(entries[0])).value)] + Parsed(entries[1..], parse)
  }

  /** forwardedAddresses: every entry must parse, and a blank header is no list at all. */
  method ForwardedAddresses(header: string, parse: Parser) returns (addresses: Option<seq<Addr>>)
    ensures addresses ==
            if !Blank(header) && AllParse(Split(header, ','), parse) then Some(Parsed(Split(header, ','), parse))
            else None
  {
    if TrimSpace(header) == "" {
      return None;
    }
    var parts := Split(header, ',');
    var result: seq<Addr> := [];
    for i := 0 to |parts|
      invariant |result| == i
      invariant forall j :: 0 <= j < i ==>
                  parse(TrimSpace(parts[j])).Some? && result[j] == Addr(parse(TrimSpace(parts[j])).value)
    {
      var address := parse(TrimSpace(parts[i]));
      if address.None? {
        return None;
      }
      result := result + [Addr(address.value)];
    }
    assert result == Parsed(parts, parse);
    return Some(result);
  }

  /** The rightmost untrusted address, the peer when there is none. */
  function RightmostUntrusted(addresses: seq<Addr>, networks: seq<Network>, remote: Addr): Addr {
    if addresses == [] then remote
    else
      var last := addresses[|addresses| - 1];
      if !Trusted(networks, last) then last
      else RightmostUntrusted(addresses[..|addresses| - 1], networks, remote)
  }

  /** What the walk answers, said without walking. */
  lemma {:induction false} RightmostUntrustedMeans(addresses: seq<Addr>, networks: seq<Network>, remote: Addr)
    ensures var client := RightmostUntrusted(addresses, networks, remote);
            if forall i :: 0 <= i < |addresses| ==> Trusted(networks, addresses[i]) then client == remote
            else exists i :: 0 <= i < |addresses| && !Trusted(networks, addresses[i]) && client == addresses[i] &&
                             forall j :: i < j < |addresses| ==> Trusted(networks, addresses[j])
  {
    hide Trusted;
    if addresses != [] && Trusted(networks, addresses[|addresses| - 1]) {
      var rest := addresses[..|addresses| - 1];
      var client := RightmostUntrusted(rest, networks, remote);
      RightmostUntrustedMeans(rest, networks, remote);
      if i :| 0 <= i < |rest| && !Trusted(networks, rest[i]) && client == rest[i] &&
              forall j :: i < j < |rest| ==> Trusted(networks, rest[j]) {
        assert addresses[i] == rest[i];
        forall j | i < j < |addresses| ensures Trusted(networks, addresses[j]) {
          assert j < |rest| ==> addresses[j] == rest[j];
        }
      } else {
        assert forall i :: 0 <= i < |rest| ==> rest[i] == addresses[i];
      }
    }
  }

  predicate Believed(config: Config, remote: Addr) {
    config.trustAnyPeer || Trusted(config.networks, remote)
  }

  /** The client address for the lines of X-Forwarded-For. */
  function ClientOf(config: Config, remote: Addr, lines: seq<string>, parse: Parser): Addr {
    if Believed(config, remote) && AllParse(Entries(lines), parse)
    then RightmostUntrusted(Parsed(Entries(lines), parse), config.networks, remote)
    else remote
  }

  lemma {:induction false} TrimLeftBlank(s: string)
    requires Blank(s)
    ensures forall c :: c in s ==> IsSpace(c)
    decreases |s|
  {
    if s != "" {
      if IsSpace(s[0]) {
        TrimLeftBlank(s[1..]);
        assert s == [s[0]] + s[1..];
      } else {
        TrimRightKeepsFirst(s);
      }
    }
  }

  lemma BlankHasNoComma(s: string)
    requires Blank(s)
    ensures ',' !in s
  {
    TrimLeftBlank(s);
  }

  /** A blank header is a header that does not parse, so the early return changes nothing. */
  lemma BlankNeverParses(header: string, parse: Parser)
    requires parse("").None? && Blank(header)
    ensures !AllParse(Split(header, ','), parse)
  {
    var i := IndexOf(header, ',');
    if i < |header| {
      BlankHasNoComma(header);
    } else {
      assert header[..i] == header;
      SplitWhole(header, ',');
      assert Split(header, ',')[0] == header;
    }
  }

  // ---------------------------------------------------------------- schemes

  function Lower(s: string): string {
    if s == "" then ""
    else [if 'A' <= s[0] <= 'Z' then (s[0] as int + 32) as char else s[0]] + Lower(s[1..])
  }

  /** What one non-blank entry says: http, https, or nothing to be believed. */
  function SchemeOf(entry: string): Option<string> {
    var nearest := Lower(TrimSpace(entry));
    if nearest == "http" || nearest == "https" then Some(nearest) else None
  }

  /** The last entry that is not blank decides. */
  function SchemeFrom(entries: seq<string>): Option<string> {
    if entries == [] then None
    else
      var last := entries[|entries| - 1];
      if Blank(last) then SchemeFrom(entries[..|entries| - 1]) else SchemeOf(last)
  }

  /** What the headers' entries say, without walking: the last one that is not blank, if there is one. */
  lemma {:induction false} SchemeFromMeans(entries: seq<string>)
    ensures if forall i :: 0 <= i < |entries| ==> Blank(entries[i]) then SchemeFrom(entries) == None
            else exists i :: 0 <= i < |entries| && !Blank(entries[i]) && SchemeFrom(entries) == SchemeOf(entries[i]) &&
                             forall j :: i < j < |entries| ==> Blank(entries[j])
    decreases |entries|
  {
    hide Blank, SchemeOf;
    if entries != [] && Blank(entries[|entries| - 1]) {
      var rest := entries[..|entries| - 1];
      SchemeFromMeans(rest);
      if i :| 0 <= i < |rest| && !Blank(rest[i]) && SchemeFrom(rest) == SchemeOf(rest[i]) &&
              forall j :: i < j < |rest| ==> Blank(rest[j]) {
        assert entries[i] == rest[i];
        forall j | i < j < |entries| ensures Blank(entries[j]) {
          assert j < |rest| ==> entries[j] == rest[j];
        }
      } else {
        assert forall i :: 0 <= i < |rest| ==> rest[i] == entries[i];
      }
    }
  }

  lemma LowerBlank(s: string)
    ensures Lower(s) == "" <==> s == ""
  {
  }

  method ForwardedScheme(header: string) returns (scheme: Option<string>)
    ensures scheme == SchemeFrom(Split(header, ','))
  {
    var entries := Split(header, ',');
    var index := |entries|;
    assert entries[..|entries|] == entries;
    while index > 0
      invariant 0 <= index <= |entries|
      invariant SchemeFrom(entries[..index]) == SchemeFrom(entries)
    {
      index := index - 1;
      assert entries[..index + 1][..index] == entries[..index];
      var nearest := Lower(TrimSpace(entries[index]));
      LowerBlank(TrimSpace(entries[index]));
      if nearest == "" {
        continue;
      }
      if nearest == "https" || nearest == "http" {
        return Some(nearest);
      }
      return None;
    }
    return None;
  }

  /** The scheme for the lines of X-Forwarded-Proto. */
  function SchemeFor(config: Config, remote: Addr, observed: string, lines: seq<string>): string {
    if Believed(config, remote) && SchemeFrom(Entries(lines)).Some? then SchemeFrom(Entries(lines)).value else observed
  }

  // ---------------------------------------------------------------- the middleware

  /** The right-to-left loop over the forwarded addresses. */
  method Walk(addresses: seq<Addr>, networks: seq<Network>, remote: Addr) returns (client: Addr)
    ensures client == RightmostUntrusted(addresses, networks, remote)
  {
    client := remote;
    var index := |addresses|;
    assert addresses[..|addresses|] == addresses;
    while index > 0
      invariant 0 <= index <= |addresses| && client == remote
      invariant RightmostUntrusted(addresses[..index], networks, remote) ==
                RightmostUntrusted(addresses, networks, remote)
    {
      index := index - 1;
      assert addresses[..index + 1][..index] == addresses[..index];
      var contained := PrefixContains(networks, addresses[index]);
      if !contained {
        return addresses[index];
      }
    }
  }

  lemma JoinedLinesParse(lines: seq<string>, parse: Parser)
    requires parse("").None?
    ensures var header := ForwardedHeader(lines);
            lines != [] ==> Split(header, ',') == Entries(lines)
    ensures var header := ForwardedHeader(lines);
            lines != [] ==> (!Blank(header) && AllParse(Split(header, ','), parse) <==> AllParse(Entries(lines), parse))
    ensures lines == [] ==> Blank(ForwardedHeader(lines)) && Entries(lines) == []
  {
    if lines != [] {
      SplitJoinedLines(lines);
      if Blank(ForwardedHeader(lines)) {
        BlankNeverParses(ForwardedHeader(lines), parse);
      }
    }
  }

  lemma JoinedLinesScheme(lines: seq<string>)
    ensures SchemeFrom(Split(ForwardedHeader(lines), ',')) == SchemeFrom(Entries(lines))
  {
    if lines != [] {
      SplitJoinedLines(lines);
    } else {
      assert Split("", ',') == [""];
      assert [""][..0] == [];
      assert Blank("");
    }
  }

  /** TrustedProxy for one request. */
  method Resolve(config: Config, remote: Addr, observed: string, forLines: seq<string>, protoLines: seq<string>,
                 parse: Parser)
    returns (client: Addr, scheme: string)
    requires parse("").None?
    ensures client == ClientOf(config, remote, forLines, parse)
    ensures scheme == SchemeFor(config, remote, observed, protoLines)
  {
    client, scheme := remote, observed;
    var contained := PrefixContains(config.networks, remote);
    if config.trustAnyPeer || contained {
      var forwarded := ForwardedAddresses(ForwardedHeader(forLines), parse);
      JoinedLinesParse(forLines, parse);
      if forwarded.Some? {
        client := Walk(forwarded.value, config.networks, remote);
      }
      var forwardedScheme := ForwardedScheme(ForwardedHeader(protoLines));
      JoinedLinesScheme(protoLines);
      if forwardedScheme.Some? {
        scheme := forwardedScheme.value;
      }
    }
  }

  // ---------------------------------------------------------------- what a client can put in front

  ghost predicate HasUntrusted(config: Config, entries: seq<string>, parse: Parser)
    requires AllParse(entries, parse)
  {
    exists i :: 0 <= i < |entries| && !Trusted(config.networks, Parsed(entries, parse)[i])
  }

  lemma {:induction false} WalkStopsInTail(a: seq<Addr>, b: seq<Addr>, networks: seq<Network>, remote: Addr)
    requires exists i :: 0 <= i < |b| && !Trusted(networks, b[i])
    ensures RightmostUntrusted(a + b, networks, remote) == RightmostUntrusted(b, networks, remote)
    decreases |b|
  {
    hide Trusted;
    var i :| 0 <= i < |b| && !Trusted(networks, b[i]);
    var last := b[|b| - 1];
    if Trusted(networks, last) {
      assert (a + b)[..|a + b| - 1] == a + b[..|b| - 1];
      assert b[..|b| - 1][i] == b[i];
      WalkStopsInTail(a, b[..|b| - 1], networks, remote);
    }
  }

  lemma AllParseConcat(a: seq<string>, b: seq<string>, parse: Parser)
    ensures AllParse(a + b, parse) <==> AllParse(a, parse) && AllParse(b, parse)
  {
    hide TrimSpace;
    if !AllParse(a, parse) {
      var i :| 0 <= i < |a| && parse(TrimSpace(a[i])).None?;
      assert (a + b)[i] == a[i];
    } else if !AllParse(b, parse) {
      var i :| 0 <= i < |b| && parse(TrimSpace(b[i])).None?;
      assert (a + b)[|a| + i] == b[i];
    }
  }

  lemma ParsedConcat(a: seq<string>, b: seq<string>, parse: Parser)
    ensures AllParse(a + b, parse) <==> AllParse(a, parse) && AllParse(b, parse)
    ensures AllParse(a + b, parse) ==> Parsed(a + b, parse) == Parsed(a, parse) + Parsed(b, parse)
  {
    AllParseConcat(a, b, parse);
    hide TrimSpace, AllParse, Parsed;
  }

  /**
   * When the proxy's own lines parse and hold an untrusted address, lines a client puts in front of
   * them change nothing if they parse, and make the answer fall back to the peer if they do not.
   */
  lemma PrependedLinesForClient(config: Config, remote: Addr, extra: seq<string>, lines: seq<string>, parse: Parser)
    requires Believed(config, remote) && AllParse(Entries(lines), parse) && HasUntrusted(config, Entries(lines), parse)
    ensures ClientOf(config, remote, extra + lines, parse) ==
            if AllParse(Entries(extra), parse) then ClientOf(config, remote, lines, parse) else remote
  {
    hide AllParse, Parsed, Trusted, TrimSpace, Entries;
    var a, b := Entries(extra), Entries(lines);
    EntriesConcat(extra, lines);
    ParsedConcat(a, b, parse);
    if AllParse(a, parse) {
      WalkStopsInTail(Parsed(a, parse), Parsed(b, parse), config.networks, remote);
    }
  }

  /** Whatever a client puts in front, the scheme stays when the proxy's lines hold an entry that is not blank. */
  lemma {:induction false} SchemeFromTail(a: seq<string>, b: seq<string>)
    ensures SchemeFrom(a + b) ==
            if exists i :: 0 <= i < |b| && !Blank(b[i]) then SchemeFrom(b) else SchemeFrom(a)
    decreases |b|
  {
    hide Blank, SchemeOf;
    if b == [] {
      assert a + b == a;
    } else {
      var last := b[|b| - 1];
      assert (a + b)[..|a + b| - 1] == a + b[..|b| - 1];
      if Blank(last) {
        SchemeFromTail(a, b[..|b| - 1]);
        if i :| 0 <= i < |b| && !Blank(b[i]) {
          assert b[..|b| - 1][i] == b[i];
        }
      }
    }
  }

  lemma PrependedLinesForScheme(config: Config, remote: Addr, observed: string, extra: seq<string>, lines: seq<string>)
    requires exists i :: 0 <= i < |Entries(lines)| && !Blank(Entries(lines)[i])
    ensures SchemeFor(config, remote, observed, extra + lines) == SchemeFor(config, remote, observed, lines)
  {
    EntriesConcat(extra, lines);
    SchemeFromTail(Entries(extra), Entries(lines));
  }

  // ---------------------------------------------------------------- whose word is taken

  /** Some declared network holds the address. */
  ghost predicate Inside(networks: seq<Network>, address: nat) {
    exists k :: 0 <= k < |networks| && networks[k](address)
  }

  /** The peer is declared, or every peer is. */
  ghost predicate Declared(config: Config, remote: Addr) {
    config.trustAnyPeer || (remote.Addr? && Inside(config.networks, remote.value))
  }

  /** A peer that is not declared speaks only for itself, whatever its headers say. */
  lemma UndeclaredPeerIgnored(config: Config, remote: Addr, observed: string, forLines: seq<string>,
                              protoLines: seq<string>, parse: Parser)
    requires !config.trustAnyPeer
    requires remote.NoAddr? || forall k :: 0 <= k < |config.networks| ==> !config.networks[k](remote.value)
    ensures ClientOf(config, remote, forLines, parse) == remote
    ensures SchemeFor(config, remote, observed, protoLines) == observed
  {
    assert !Believed(config, remote);
    hide AllParse, Entries, SchemeFrom;
  }

  lemma TrustedMeans(networks: seq<Network>, address: Addr)
    ensures Trusted(networks, address) <==> address.Addr? && Inside(networks, address.value)
  {
  }

  /** The client is the rightmost entry outside every network, the peer when there is none or one does not parse. */
  ghost predicate IsClient(networks: seq<Network>, remote: Addr, entries: seq<string>, parse: Parser, client: Addr) {
    if exists i :: 0 <= i < |entries| && parse(TrimSpace(entries[i])).None? then client == remote
    else if forall i :: 0 <= i < |entries| ==> Inside(networks, parse(TrimSpace(entries[i])).value)
    then client == remote
    else exists i ::
      && 0 <= i < |entries| && !Inside(networks, parse(TrimSpace(entries[i])).value)
      && client == Addr(parse(TrimSpace(entries[i])).value)
      && forall j :: i < j < |entries| ==> Inside(networks, parse(TrimSpace(entries[j])).value)
  }

  lemma WalkFindsClient(networks: seq<Network>, remote: Addr, entries: seq<string>, parse: Parser)
    requires AllParse(entries, parse)
    ensures IsClient(networks, remote, entries, parse, RightmostUntrusted(Parsed(entries, parse), networks, remote))
  {
    hide TrimSpace;
    var addresses := Parsed(entries, parse);
    var client := RightmostUntrusted(addresses, networks, remote);
    RightmostUntrustedMeans(addresses, networks, remote);
    forall i | 0 <= i < |entries|
      ensures Trusted(networks, addresses[i]) <==> Inside(networks, parse(TrimSpace(entries[i])).value)
    {
      TrustedMeans(networks, addresses[i]);
    }
    hide Trusted, Inside, RightmostUntrusted, Parsed;
    if i :| 0 <= i < |addresses| && !Trusted(networks, addresses[i]) && client == addresses[i] &&
            forall j :: i < j < |addresses| ==> Trusted(networks, addresses[j]) {
      assert !Inside(networks, parse(TrimSpace(entries[i])).value);
      assert client == Addr(parse(TrimSpace(entries[i])).value);
      forall j | i < j < |entries| ensures Inside(networks, parse(TrimSpace(entries[j])).value) {
        assert Trusted(networks, addresses[j]);
      }
    } else {
      forall i | 0 <= i < |entries| ensures Inside(networks, parse(TrimSpace(entries[i])).value) {
        assert Trusted(networks, addresses[i]);
      }
    }
  }

  /** From a declared peer the client is read off the entries of all header lines. */
  lemma DeclaredPeerClient(config: Config, remote: Addr, lines: seq<string>, parse: Parser)
    requires Declared(config, remote)
    ensures IsClient(config.networks, remote, Entries(lines), parse, ClientOf(config, remote, lines, parse))
  {
    TrustedMeans(config.networks, remote);
    hide Entries, TrimSpace, Inside, Trusted, RightmostUntrusted, Parsed;
    if AllParse(Entries(lines), parse) {
      WalkFindsClient(config.networks, remote, Entries(lines), parse);
      hide IsClient;
    }
  }

  /** An entry that says http or https in letters of either case. */
  predicate Spells(entry: string, scheme: string) {
    var text := TrimSpace(entry);
    |text| == |scheme| && forall i :: 0 <= i < |text| ==>
      text[i] == scheme[i] || ('a' <= scheme[i] <= 'z' && text[i] as int + 32 == scheme[i] as int)
  }

  lemma {:induction false} LowerLength(s: string)
    ensures |Lower(s)| == |s|
  {
    if s != "" {
      LowerLength(s[1..]);
    }
  }

  lemma {:induction false} LowerMeans(s: string, scheme: string)
    requires forall i :: 0 <= i < |scheme| ==> 'a' <= scheme[i] <= 'z'
    ensures Lower(s) == scheme <==>
            |s| == |scheme| && forall i :: 0 <= i < |s| ==> s[i] == scheme[i] || s[i] as int + 32 == scheme[i] as int
  {
    LowerLength(s);
    if s != "" && |s| == |scheme| {
      LowerMeans(s[1..], scheme[1..]);
      assert scheme == [scheme[0]] + scheme[1..];
      assert Lower(s) == [Lower(s)[0]] + Lower(s[1..]);
      if forall i :: 0 <= i < |s| ==> s[i] == scheme[i] || s[i] as int + 32 == scheme[i] as int {
        assert forall i :: 0 <= i < |s[1..]| ==> s[1..][i] == s[i + 1] && scheme[1..][i] == scheme[i + 1];
      }
      if Lower(s) == scheme {
        assert Lower(s[1..]) == scheme[1..];
        forall i | 0 <= i < |s| ensures s[i] == scheme[i] || s[i] as int + 32 == scheme[i] as int {
          assert i > 0 ==> s[i] == s[1..][i - 1] && scheme[i] == scheme[1..][i - 1];
        }
      }
    }
  }

  /** An entry is believed exactly when it spells one of the two schemes. */
  lemma SchemeOfMeans(entry: string)
    ensures SchemeOf(entry) == Some("https") <==> Spells(entry, "https")
    ensures SchemeOf(entry) == Some("http") <==> Spells(entry, "http")
    ensures SchemeOf(entry) in {None, Some("http"), Some("https")}
  {
    LowerMeans(TrimSpace(entry), "http");
    LowerMeans(TrimSpace(entry), "https");
    hide TrimSpace, Lower;
  }

  /** The scheme is what the last entry that is not blank spells, else the observed one. */
  ghost predicate IsScheme(entries: seq<string>, observed: string, scheme: string) {
    if forall i :: 0 <= i < |entries| ==> TrimSpace(entries[i]) == "" then scheme == observed
    else exists i ::
      && 0 <= i < |entries| && TrimSpace(entries[i]) != ""
      && (forall j :: i < j < |entries| ==> TrimSpace(entries[j]) == "")
      && scheme == if Spells(entries[i], "https") then "https"
                   else if Spells(entries[i], "http") then "http" else observed
  }

  lemma EntriesSayScheme(entries: seq<string>, observed: string)
    ensures IsScheme(entries, observed, if SchemeFrom(entries).Some? then SchemeFrom(entries).value else observed)
  {
    SchemeFromMeans(entries);
    hide TrimSpace, Spells, SchemeOf, SchemeFrom;
    if i :| 0 <= i < |entries| && !Blank(entries[i]) && SchemeFrom(entries) == SchemeOf(entries[i]) &&
            forall j :: i < j < |entries| ==> Blank(entries[j]) {
      SchemeOfMeans(entries[i]);
      forall j | i < j < |entries| ensures TrimSpace(entries[j]) == "" {
        assert Blank(entries[j]);
      }
      assert TrimSpace(entries[i]) != "";
    } else {
      forall i | 0 <= i < |entries| ensures TrimSpace(entries[i]) == "" {
        assert Blank(entries[i]);
      }
    }
  }

  /** From a declared peer the scheme is read off the entries of all header lines. */
  lemma DeclaredPeerScheme(config: Config, remote: Addr, observed: string, lines: seq<string>)
    requires Declared(config, remote)
    ensures IsScheme(Entries(lines), observed, SchemeFor(config, remote, observed, lines))
  {
    TrustedMeans(config.networks, remote);
    EntriesSayScheme(Entries(lines), observed);
    hide Entries, IsScheme, SchemeFrom, Inside, Trusted;
  }
}
