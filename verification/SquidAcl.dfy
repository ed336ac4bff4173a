/** Approved private hosts: the registry in sandbox/app/registry.py writes them to a text file that
    it re-reads itself and that squid-proxy/check-approved-private.sh consults for every request.
 */
module SquidAcl {
  import opened Common

  // ---------------------------------------------------------------------------------------
  // The file format
  // ---------------------------------------------------------------------------------------

  /** `str.isspace` for one character, which is what `strip` removes. */
  predicate IsSpace(c: char) {
    || '\t' <= c <= '\r' || '\U{1C}' <= c <= ' ' || c == '\U{85}' || c == '\U{A0}'
    || c == '\U{1680}' || '\U{2000}' <= c <= '\U{200A}' || c == '\U{2028}' || c == '\U{2029}'
    || c == '\U{202F}' || c == '\U{205F}' || c == '\U{3000}'
  }

  /** `s.split("\n")` */
  function Split(s: string): (parts: seq<string>)
    ensures |parts| > 0
  {
    if s == "" then [""]
    else
      var rest := Split(s[1..]);
      if s[0] == '\n' then [""] + rest else [[s[0]] + rest[0]] + rest[1..]
  }

  function StripLeft(s: string): string {
    if s != "" && IsSpace(s[0]) then StripLeft(s[1..]) else s
  }

  function StripRight(s: string): string {
    if s != "" && IsSpace(s[|s| - 1]) then StripRight(s[..|s| - 1]) else s
  }

  function Strip(s: string): string {
    StripRight(StripLeft(s))
  }

  /** What `_write_squid_acl` writes. */
  function Text(entries: seq<string>): string {
    if entries == [] then "" else Join(entries, "\n") + "\n"
  }

  function Elements(s: seq<string>): set<string> {
    set e | e in s
  }

  /** How the registry reads the file back. */
  function Parse(text: string): set<string> {
    Elements(Split(Strip(text))) - {""}
  }

  /** The lines the shell's `read` sees: those ended by a newline. */
  function Lines(text: string): seq<string> {
    var parts := Split(text);
    parts[..|parts| - 1]
  }

  predicate Clean(e: string) {
    e != "" && forall i :: 0 <= i < |e| ==> !IsSpace(e[i])
  }

  predicate AllClean(entries: seq<string>) {
    forall e :: e in entries ==> Clean(e)
  }

  lemma {:induction false} SplitFirst(line: string, rest: string)
    requires '\n' !in line
    ensures Split(line + "\n" + rest) == [line] + Split(rest)
    decreases |line|
  {
    var s := line + "\n" + rest;
    if line == "" {
      assert s == "\n" + rest && s[1..] == rest;
    } else {
      assert s[1..] == line[1..] + "\n" + rest;
      SplitFirst(line[1..], rest);
      assert line == [line[0]] + line[1..];
    }
  }

  lemma {:induction false} SplitLine(line: string)
    requires '\n' !in line
    ensures Split(line) == [line]
    decreases |line|
  {
    if line != "" {
      SplitLine(line[1..]);
      assert line == [line[0]] + line[1..];
    }
  }

  lemma {:induction false} SplitJoin(entries: seq<string>)
    requires entries != [] && forall e :: e in entries ==> '\n' !in e
    ensures Split(Join(entries, "\n")) == entries
    ensures Split(Join(entries, "\n") + "\n") == entries + [""]
    decreases |entries|
  {
    var first, rest := entries[0], entries[1..];
    assert entries == [first] + rest;
    if rest == [] {
      SplitLine(first);
      SplitFirst(first, "");
      assert first + "\n" + "" == first + "\n";
      assert Split("") == [""];
    } else {
      SplitJoin(rest);
      SplitFirst(first, Join(rest, "\n"));
      SplitFirst(first, Join(rest, "\n") + "\n");
      assert first + "\n" + (Join(rest, "\n") + "\n") == first + "\n" + Join(rest, "\n") + "\n";
      assert [first] + (rest + [""]) == entries + [""];
    }
  }

  lemma CleanHasNoNewline(e: string)
    requires Clean(e)
    ensures '\n' !in e
  {
  }

  lemma {:induction false} JoinEnds(entries: seq<string>)
    requires entries != [] && AllClean(entries)
    ensures var t := Join(entries, "\n");
            t != "" && !IsSpace(t[0]) && !IsSpace(t[|t| - 1])
    decreases |entries|
  {
    assert Clean(entries[0]);
    if |entries| > 1 {
      JoinEnds(entries[1..]);
    }
  }

  /** Writing a list of clean entries and reading it back gives the same set, and the proxy's
      helper sees exactly these lines. */
  lemma FileRoundTrip(entries: seq<string>)
    requires AllClean(entries)
    ensures Parse(Text(entries)) == Elements(entries)
    ensures Lines(Text(entries)) == entries
  {
    if entries == [] {
      assert Split("") == [""];
    } else {
      var body := Join(entries, "\n");
      forall e | e in entries ensures '\n' !in e {
        CleanHasNoNewline(e);
      }
      SplitJoin(entries);
      JoinEnds(entries);
      var text := body + "\n";
      assert text[..|text| - 1] == body;
      assert StripLeft(text) == text && StripRight(body) == body;
      assert Strip(text) == body;
    }
  }

  // ---------------------------------------------------------------------------------------
  // Which entries are private
  // ---------------------------------------------------------------------------------------

  /** What `ipaddress.ip_address` makes of a host. */
  datatype IpKind = NotAnIp | PrivateIp | PublicIp

  type Classifier = string -> IpKind

  predicate IsDigits(s: string) {
    s != "" && forall i :: 0 <= i < |s| ==> '0' <= s[i] <= '9'
  }

  /** `entry.rpartition(":")`: the position of the last colon. */
  function LastColon(s: string): (i: int)
    ensures -1 <= i < |s|
    ensures i >= 0 ==> s[i] == ':'
  {
    if s == "" then -1
    else if s[|s| - 1] == ':' then |s| - 1
    else LastColon(s[..|s| - 1])
  }

  function ParseHostFromEntry(entry: string): string {
    var i := LastColon(entry);
    if i >= 0 && IsDigits(entry[i + 1..]) then entry[..i] else entry
  }

  predicate IsPrivate(ipKind: Classifier, entry: string) {
    var host := Lower(ParseHostFromEntry(entry));
    match ipKind(host)
    case PrivateIp => true
    case PublicIp => false
    case NotAnIp =>
      || EndsWith(host, ".local") || EndsWith(host, ".lan") || EndsWith(host, ".home") || EndsWith(host, ".internal")
      || '.' !in host
  }

  function PrivateOf(ipKind: Classifier, hosts: set<string>): set<string> {
    set e | e in hosts && IsPrivate(ipKind, e) :: Lower(e)
  }

  /** Both forms of an entry: a port is split off only if it is a number. */
  lemma ParseHostSplitsPort(host: string, port: string)
    requires IsDigits(port)
    ensures ParseHostFromEntry(host + ":" + port) == host
    ensures ':' !in host ==> ParseHostFromEntry(host) == host
  {
    LastColonFound(host, port);
    var s := host + ":" + port;
    assert s[|host| + 1..] == port && s[..|host|] == host;
  }

  lemma {:induction false} LastColonFound(host: string, port: string)
    requires ':' !in port
    ensures LastColon(host + ":" + port) == |host|
    decreases |port|
  {
    var s := host + ":" + port;
    if port != "" {
      LastColonFound(host, port[..|port| - 1]);
      assert s[..|s| - 1] == host + ":" + port[..|port| - 1];
      assert s[|s| - 1] == port[|port| - 1] && port[|port| - 1] in port;
    }
  }

  /** Nothing else is ever split off: an entry is shortened if and only if it ends in a colon and a number. */
  lemma ParseHostShortensIff(entry: string)
    ensures ParseHostFromEntry(entry) != entry
       <==> exists i :: 0 <= i < |entry| && entry[i] == ':' && IsDigits(entry[i + 1..])
  {
    if i :| 0 <= i < |entry| && entry[i] == ':' && IsDigits(entry[i + 1..]) {
      assert entry == entry[..i] + ":" + entry[i + 1..];
      ParseHostSplitsPort(entry[..i], entry[i + 1..]);
    }
  }

  /** What follows the last dot. */
  function LastLabel(host: string): string
    decreases |host|
  {
    if '.' !in host then host
    else if host[0] == '.' && '.' !in host[1..] then host[1..]
    else LastLabel(host[1..])
  }

  lemma {:induction false} LastLabelAfterDot(host: string, name: string)
    requires '.' !in name
    ensures EndsWith(host, "." + name) <==> '.' in host && LastLabel(host) == name
    decreases |host|
  {
    if EndsWith(host, "." + name) {
      EndHasDot(host, name);
    }
    if '.' in host {
      var rest := host[1..];
      assert host == [host[0]] + rest;
      if host[0] == '.' && '.' !in rest {
        if EndsWith(host, "." + name) {
          DotIsFirst(host, name);
        } else {
          assert host != "." + name;
        }
      } else {
        LastLabelAfterDot(rest, name);
        EndsWithTail(host, "." + name);
        assert host != "." + name;
      }
    }
  }

  lemma EndHasDot(host: string, name: string)
    requires EndsWith(host, "." + name)
    ensures '.' in host && host[|host| - |name| - 1] == '.'
  {
    assert host[|host| - |name| - 1] == ("." + name)[0];
  }

  lemma DotIsFirst(host: string, name: string)
    requires host != "" && '.' !in host[1..] && EndsWith(host, "." + name)
    ensures host[1..] == name
  {
    EndHasDot(host, name);
    forall i | 0 < i < |host| ensures host[i] != '.' {
      assert host[i] == host[1..][i - 1];
    }
    assert host == "." + name;
  }

  lemma EndsWithTail(s: string, suffix: string)
    requires s != ""
    ensures EndsWith(s, suffix) <==> s == suffix || EndsWith(s[1..], suffix)
  {
    if |suffix| < |s| {
      assert s[|s| - |suffix|..] == s[1..][|s[1..]| - |suffix|..];
    }
  }

  const LAN_LABELS: set<string> := {"local", "lan", "home", "internal"}

  /** Which entries are approved: those of private addresses, and of hosts that are no address and have a
      single label or a LAN label at the end; never those of public addresses. */
  lemma PrivateIff(ipKind: Classifier, entry: string)
    ensures var host := Lower(ParseHostFromEntry(entry));
            IsPrivate(ipKind, entry) <==>
              match ipKind(host)
              case PrivateIp => true
              case PublicIp => false
              case NotAnIp => '.' in host ==> LastLabel(host) in LAN_LABELS
  {
    var host := Lower(ParseHostFromEntry(entry));
    assert ".local" == "." + "local" && ".lan" == "." + "lan";
    assert ".home" == "." + "home" && ".internal" == "." + "internal";
    LastLabelAfterDot(host, "local");
    LastLabelAfterDot(host, "lan");
    LastLabelAfterDot(host, "home");
    LastLabelAfterDot(host, "internal");
  }

  /** A port changes nothing about that. */
  lemma PortDoesNotMatter(ipKind: Classifier, host: string, port: string)
    requires ':' !in host && IsDigits(port)
    ensures IsPrivate(ipKind, host + ":" + port) <==> IsPrivate(ipKind, host)
  {
    ParseHostSplitsPort(host, port);
  }

  lemma LowerTwice(s: string)
    ensures Lower(Lower(s)) == Lower(s)
  {
  }

  lemma LowerClean(s: string)
    requires Clean(s)
    ensures Clean(Lower(s))
  {
    forall i | 0 <= i < |s| ensures !IsSpace(LowerChar(s[i])) {
      assert !IsSpace(s[i]);
    }
  }

  // ---------------------------------------------------------------------------------------
  // The registry
  // ---------------------------------------------------------------------------------------

  /** A server's allowed hosts; `None` is "no restriction". */
  type Servers = map<string, Option<set<string>>>

  /** All entries of the live servers. */
  function AllHosts(servers: Servers): set<string> {
    set id, e | id in servers && servers[id].Some? && e in servers[id].value :: e
  }

  ghost predicate CleanHosts(hosts: set<string>) {
    forall e :: e in hosts ==> Clean(e)
  }

  /** The file lists exactly the entries `s`. */
  ghost predicate FileHolds(text: string, s: set<string>) {
    exists entries :: AllClean(entries) && text == Text(entries) && Elements(entries) == s
  }

  lemma ElementsSnoc(list: seq<string>, x: string)
    ensures Elements(list + [x]) == Elements(list) + {x}
  {
  }

  lemma PrivateOfOneMore(ipKind: Classifier, hosts: set<string>, e: string)
    ensures PrivateOf(ipKind, hosts + {e})
         == PrivateOf(ipKind, hosts) + if IsPrivate(ipKind, e) then {Lower(e)} else {}
  {
  }

  /** The order of the lines does not matter to either reader and is left open. */
  method Listed(hosts: set<string>) returns (list: seq<string>)
    ensures Elements(list) == hosts
  {
    list := [];
    var todo := hosts;
    while todo != {}
      invariant todo <= hosts && Elements(list) == hosts - todo
      decreases |todo|
    {
      var h :| h in todo;
      todo := todo - {h};
      ElementsSnoc(list, h);
      list := list + [h];
    }
  }

  method FilterPrivateHosts(ipKind: Classifier, hosts: set<string>) returns (private: seq<string>)
    ensures Elements(private) == PrivateOf(ipKind, hosts)
    ensures CleanHosts(hosts) ==> AllClean(private)
  {
    var list := Listed(hosts);
    private := [];
    var i := 0;
    while i < |list|
      invariant 0 <= i <= |list|
      invariant Elements(private) == PrivateOf(ipKind, Elements(list[..i]))
    {
      var entry := list[i];
      assert list[..i + 1] == list[..i] + [entry];
      ElementsSnoc(list[..i], entry);
      PrivateOfOneMore(ipKind, Elements(list[..i]), entry);
      if IsPrivate(ipKind, entry) {
        ElementsSnoc(private, Lower(entry));
        private := private + [Lower(entry)];
      }
      i := i + 1;
    }
    assert list[..i] == list;
    PrivateIsClean(ipKind, hosts);
    assert forall e :: e in private ==> e in Elements(private);
  }

  lemma PrivateIsClean(ipKind: Classifier, hosts: set<string>)
    ensures CleanHosts(hosts) ==> CleanHosts(PrivateOf(ipKind, hosts))
  {
    if CleanHosts(hosts) {
      forall p | p in PrivateOf(ipKind, hosts) ensures Clean(p) {
        var e :| e in hosts && IsPrivate(ipKind, e) && p == Lower(e);
        LowerClean(e);
      }
    }
  }

  class ToolRegistry {
    const ipKind: Classifier
    var servers: Servers
    var aclFile: string
    /** What `/execute` requests added since the last rebuild. */
    ghost var extra: set<string>

    ghost function Approved(): set<string>
      reads this
    {
      PrivateOf(ipKind, AllHosts(servers)) + extra
    }

    ghost predicate Valid()
      reads this
    {
      CleanHosts(AllHosts(servers)) && FileHolds(aclFile, Approved())
    }

    constructor (ipKind: Classifier)
      ensures Valid() && this.ipKind == ipKind && servers == map[] && extra == {}
    {
      this.ipKind := ipKind;
      servers, aclFile, extra := map[], "", {};
      new;
      assert Elements([]) == {} == Approved();
      assert Text([]) == aclFile;
    }

    /** A full rebuild from the live servers. */
    method UpdateSquidApprovedHosts()
      requires CleanHosts(AllHosts(servers))
      modifies this`aclFile, this`extra
      ensures Valid() && extra == {}
    {
      var allHosts := AllHosts(servers);
      var private := FilterPrivateHosts(ipKind, allHosts);
      aclFile := Text(private);
      extra := {};
      assert Elements(private) == Approved();
    }

    method UnregisterServer(id: string) returns (found: bool)
      requires Valid()
      modifies this
      ensures Valid() && found == (id in old(servers)) && servers == old(servers) - {id}
      ensures extra == if found then {} else old(extra)
    {
      if id in servers {
        servers := servers - {id};
        UpdateSquidApprovedHosts();
        return true;
      }
      assert servers - {id} == servers;
      return false;
    }

    method RegisterServer(id: string, allowedHosts: Option<set<string>>)
      requires Valid() && (allowedHosts.Some? ==> CleanHosts(allowedHosts.value))
      modifies this
      ensures Valid() && servers == old(servers)[id := allowedHosts] && extra == {}
    {
      if id in servers {
        var _ := UnregisterServer(id);
      }
      servers := servers[id := allowedHosts];
      assert servers == old(servers)[id := allowedHosts];
      UpdateSquidApprovedHosts();
    }

    /** Merges entries into the file by reading it back. */
    method EnsurePrivateHosts(hosts: set<string>)
      requires Valid() && CleanHosts(hosts)
      modifies this`aclFile, this`extra
      ensures Valid() && extra == old(extra) + PrivateOf(ipKind, hosts)
    {
      var private := FilterPrivateHosts(ipKind, hosts);
      extra := extra + PrivateOf(ipKind, hosts);
      if private == [] {
        assert PrivateOf(ipKind, hosts) == Elements(private) == {};
        assert Approved() == old(Approved());
        return;
      }
      ReadBack(aclFile, old(Approved()));
      var existing := Parse(aclFile);
      var merged := existing + Elements(private);
      assert merged == Approved();
      if merged != existing {
        var list := Listed(merged);
        forall e | e in list ensures Clean(e) {
          assert e in Elements(list);
        }
        aclFile := Text(list);
      }
    }
  }

  /** Reading the file gives the set it was written from. */
  lemma ReadBack(text: string, s: set<string>)
    requires FileHolds(text, s)
    ensures Parse(text) == s && CleanHosts(s) && Elements(Lines(text)) == s
  {
    var entries :| AllClean(entries) && text == Text(entries) && Elements(entries) == s;
    FileRoundTrip(entries);
  }

  // ---------------------------------------------------------------------------------------
  // The proxy's decision
  // ---------------------------------------------------------------------------------------

  /** check-approved-private.sh: does the file approve `dst` at `port`? */
  predicate Approves(text: string, dst: string, port: string) {
    && dst != ""
    && exists line :: line in Lines(text)
                      && (Lower(line) == Lower(dst) + ":" + port || Lower(line) == Lower(dst))
  }

  /** Some live server lists `entry`, up to letter case, and it is private. */
  ghost predicate Listing(ipKind: Classifier, servers: Servers, entry: string) {
    exists e :: e in AllHosts(servers) && IsPrivate(ipKind, e) && Lower(e) == entry
  }

  /** After any registration or deregistration of a live server, the proxy lets a private
      destination through if and only if some live server lists the host, or the host with that
      port: approvals are neither lost nor kept beyond their server. */
  lemma ProxyAgreesWithRegistry(ipKind: Classifier, servers: Servers, text: string, dst: string, port: string)
    requires FileHolds(text, PrivateOf(ipKind, AllHosts(servers)))
    ensures Approves(text, dst, port)
       <==> dst != "" && (Listing(ipKind, servers, Lower(dst)) || Listing(ipKind, servers, Lower(dst) + ":" + port))
  {
    var s := PrivateOf(ipKind, AllHosts(servers));
    ReadBack(text, s);
    forall line | line in Lines(text) ensures line in s && Lower(line) == line {
      assert line in Elements(Lines(text));
      var e :| e in AllHosts(servers) && IsPrivate(ipKind, e) && line == Lower(e);
      LowerTwice(e);
    }
    forall e | e in AllHosts(servers) && IsPrivate(ipKind, e)
      ensures Lower(e) in Lines(text) && Lower(Lower(e)) == Lower(e)
    {
      assert Lower(e) in Elements(Lines(text));
      LowerTwice(e);
    }
  }
}
