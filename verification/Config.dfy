/** The startup choice of a transport, `config.rs`. */
module Config {
  import opened Wrappers

  /** What the choice depends on; a socket address is only passed on. */
  datatype Config<Addr> = Config(hub: Option<Addr>, hubNym: seq<string>, requireDiversion: bool)

  datatype HubSelection<Addr> = ForwardOnly | Http(addr: Addr) | Nym(addresses: seq<string>)

  datatype ConfigError =
    | BothTransports
    | MalformedNymAddress(entry: string)
    | DuplicateNymAddress(entry: string)
    | DiversionRequired

  // ----- trimming

  /** The characters with the Unicode `White_Space` property. */
  predicate IsWhite(c: char) {
    var n := c as int;
    || 0x9 <= n <= 0xD || n == 0x20 || n == 0x85 || n == 0xA0 || n == 0x1680 || 0x2000 <= n <= 0x200A
    || n == 0x2028 || n == 0x2029 || n == 0x202F || n == 0x205F || n == 0x3000
  }

  function TrimStart(s: string): string {
    if s != [] && IsWhite(s[0]) then TrimStart(s[1..]) else s
  }

  function TrimEnd(s: string): string {
    if s != [] && IsWhite(s[|s| - 1]) then TrimEnd(s[..|s| - 1]) else s
  }

  function Trim(s: string): string {
    TrimEnd(TrimStart(s))
  }

  predicate AllWhite(s: string) {
    forall i :: 0 <= i < |s| ==> IsWhite(s[i])
  }

  predicate InkAtEnds(s: string) {
    s != [] ==> !IsWhite(s[0]) && !IsWhite(s[|s| - 1])
  }

  lemma {:induction false} TrimStartOf(a: string, t: string)
    requires AllWhite(a) && (t != [] ==> !IsWhite(t[0]))
    ensures TrimStart(a + t) == t
  {
    if a == [] {
      assert a + t == t;
    } else {
      assert (a + t)[1..] == a[1..] + t;
      TrimStartOf(a[1..], t);
    }
  }

  lemma {:induction false} TrimEndOf(t: string, b: string)
    requires AllWhite(b) && (t != [] ==> !IsWhite(t[|t| - 1]))
    ensures TrimEnd(t + b) == t
    decreases |b|
  {
    if b == [] {
      assert t + b == t;
    } else {
      assert (t + b)[..|t + b| - 1] == t + b[..|b| - 1];
      TrimEndOf(t, b[..|b| - 1]);
    }
  }

  /** Trimming takes exactly the white space around a string away, whatever the string is. */
  lemma TrimExact(a: string, t: string, b: string)
    requires AllWhite(a) && AllWhite(b) && InkAtEnds(t)
    ensures Trim(a + t + b) == t
  {
    if t == [] {
      assert AllWhite(a + b) && a + t + b == (a + b) + [];
      TrimStartOf(a + b, []);
    } else {
      assert a + t + b == a + (t + b);
      TrimStartOf(a, t + b);
      TrimEndOf(t, b);
    }
  }

  // ----- addresses

  function SplitOnce(s: string, c: char): (r: Option<(string, string)>)
    ensures r.None? <==> c !in s
    ensures r.Some? ==> s == r.value.0 + [c] + r.value.1 && c !in r.value.0
  {
    if s == [] then None
    else if s[0] == c then Some(([], s[1..]))
    else
      match SplitOnce(s[1..], c)
      case None => None
      case Some((before, after)) => Some(([s[0]] + before, after))
  }

  predicate IsNymAddress(addr: string) {
    match SplitOnce(addr, '@')
    case None => false
    case Some((keys, gateway)) =>
      match SplitOnce(keys, '.')
      case None => false
      case Some((identity, encryption)) =>
        && gateway != [] && identity != [] && encryption != []
        && '@' !in gateway && '.' !in encryption
  }

  /** An address in three parts that no separator of its own form occurs in. */
  predicate IsSplit(addr: string, identity: string, encryption: string, gateway: string) {
    && addr == identity + "." + encryption + "@" + gateway
    && identity != [] && encryption != [] && gateway != []
    && '.' !in identity && '@' !in identity && '.' !in encryption && '@' !in encryption && '@' !in gateway
  }

  lemma SplitNotShorter(a: string, b: string, a': string, b': string, c: char)
    requires a + [c] + b == a' + [c] + b' && c !in a'
    ensures |a| >= |a'|
  {
    var s := a + [c] + b;
    assert s[|a|] == c;
    assert forall k :: 0 <= k < |a'| ==> s[k] == a'[k];
  }

  lemma SplitAt(a: string, b: string, a': string, b': string, c: char)
    requires a + [c] + b == a' + [c] + b' && c !in a && c !in a'
    ensures a == a' && b == b'
  {
    var s := a + [c] + b;
    SplitNotShorter(a, b, a', b', c);
    SplitNotShorter(a', b', a, b, c);
    assert a == s[..|a|] && b == s[|a| + 1..];
    assert a' == s[..|a'|] && b' == s[|a'| + 1..];
  }

  lemma SplitIsUnique(addr: string, i: string, e: string, g: string, i': string, e': string, g': string)
    requires IsSplit(addr, i, e, g) && IsSplit(addr, i', e', g')
    ensures i == i' && e == e' && g == g'
  {
    var keys, keys' := i + "." + e, i' + "." + e';
    assert '@' !in keys && '@' !in keys';
    SplitAt(keys, g, keys', g', '@');
    SplitAt(i, e, i', e', '.');
  }

  /** An address is accepted exactly when it has an `identity.encryption@gateway` split, which is then its only one. */
  lemma NymAddressExact(addr: string)
    ensures IsNymAddress(addr) <==> exists i, e, g :: IsSplit(addr, i, e, g)
  {
    if IsNymAddress(addr) {
      var (keys, g) := SplitOnce(addr, '@').value;
      var (i, e) := SplitOnce(keys, '.').value;
      assert forall c :: c in i || c in e ==> c in keys;
      assert IsSplit(addr, i, e, g);
    }
    if i, e, g :| IsSplit(addr, i, e, g) {
      var keys := i + "." + e;
      assert addr == keys + "@" + g;
      assert '@' in addr && '.' in keys && '@' !in keys by { assert addr[|keys|] == '@' && keys[|i|] == '.'; }
      var (keys', g') := SplitOnce(addr, '@').value;
      SplitAt(keys, g, keys', g', '@');
      var (i', e') := SplitOnce(keys, '.').value;
      SplitAt(i, e, i', e', '.');
    }
  }

  // ----- the selection

  /** The entries that are not blank, trimmed, in order. */
  function Entries(raw: seq<string>): seq<string> {
    if raw == [] then []
    else
      var entry := Trim(raw[0]);
      (if entry == [] then [] else [entry]) + Entries(raw[1..])
  }

  predicate Fine(xs: seq<string>, n: nat)
    requires n < |xs|
  {
    IsNymAddress(xs[n]) && xs[n] !in xs[..n]
  }

  predicate FineBefore(xs: seq<string>, n: nat)
    requires n <= |xs|
  {
    forall k :: 0 <= k < n ==> Fine(xs, k)
  }

  /** What is wrong with an entry; being malformed counts first. */
  function Objection(xs: seq<string>, n: nat): ConfigError
    requires n < |xs|
  {
    if !IsNymAddress(xs[n]) then MalformedNymAddress(xs[n]) else DuplicateNymAddress(xs[n])
  }

  /** What the selection must be. */
  ghost predicate Selects<Addr>(c: Config<Addr>, r: Result<HubSelection<Addr>, ConfigError>) {
    var xs := Entries(c.hubNym);
    if c.hub.Some? then r == (if xs == [] then Ok(Http(c.hub.value)) else Err(BothTransports))
    else if xs == [] then r == (if c.requireDiversion then Err(DiversionRequired) else Ok(ForwardOnly))
    else
      || (FineBefore(xs, |xs|) && r == Ok(Nym(xs)))
      || (exists n: nat :: n < |xs| && FineBefore(xs, n) && !Fine(xs, n) && r == Err(Objection(xs, n)))
  }

  /** The selection, with the list of addresses already seen. */
  method SelectHub<Addr>(c: Config<Addr>) returns (r: Result<HubSelection<Addr>, ConfigError>)
    ensures Selects(c, r)
  {
    var addresses := Entries(c.hubNym);
    if c.hub.Some? {
      return if addresses == [] then Ok(Http(c.hub.value)) else Err(BothTransports);
    }
    if addresses == [] {
      return if c.requireDiversion then Err(DiversionRequired) else Ok(ForwardOnly);
    }
    hide Entries, IsNymAddress;
    var seen: seq<string> := [];
    for n := 0 to |addresses|
      invariant seen == addresses[..n]
      invariant FineBefore(addresses, n)
    {
      if !IsNymAddress(addresses[n]) {
        assert !Fine(addresses, n);
        return Err(MalformedNymAddress(addresses[n]));
      }
      if addresses[n] in seen {
        assert !Fine(addresses, n);
        return Err(DuplicateNymAddress(addresses[n]));
      }
      seen := seen + [addresses[n]];
    }
    return Ok(Nym(addresses));
  }

  /** There is one right selection. */
  lemma SelectionIsUnique<Addr>(c: Config<Addr>, r: Result<HubSelection<Addr>, ConfigError>, r': Result<HubSelection<Addr>, ConfigError>)
    requires Selects(c, r) && Selects(c, r')
    ensures r == r'
  {
    var xs := Entries(c.hubNym);
    if c.hub.None? && xs != [] && r.Err? && r'.Err? {
      var n: nat :| n < |xs| && FineBefore(xs, n) && !Fine(xs, n) && r == Err(Objection(xs, n));
      var m: nat :| m < |xs| && FineBefore(xs, m) && !Fine(xs, m) && r' == Err(Objection(xs, m));
      assert m <= n && n <= m;
    }
  }

  /**
   The mixnet is selected exactly when no HTTP hub is set and the entries that are not blank are well
   formed, pairwise distinct and at least one; the addresses are then those entries, trimmed, in order.
   */
  lemma NymExact<Addr>(c: Config<Addr>, r: Result<HubSelection<Addr>, ConfigError>, xs: seq<string>)
    requires Selects(c, r)
    ensures r == Ok(Nym(xs)) <==>
            && c.hub.None? && xs == Entries(c.hubNym) && xs != []
            && (forall k :: 0 <= k < |xs| ==> IsNymAddress(xs[k]))
            && (forall j, k :: 0 <= j < k < |xs| ==> xs[j] != xs[k])
  {
    if FineBefore(xs, |xs|) {
      forall j, k | 0 <= j < k < |xs| ensures xs[j] != xs[k] {
        assert Fine(xs, k) && xs[j] == xs[..k][j];
      }
      forall k | 0 <= k < |xs| ensures IsNymAddress(xs[k]) { assert Fine(xs, k); }
    }
  }

  lemma {:induction false} EntriesConcat(a: seq<string>, b: seq<string>)
    ensures Entries(a + b) == Entries(a) + Entries(b)
  {
    if a == [] {
      assert a + b == b;
    } else {
      assert (a + b)[1..] == a[1..] + b;
      EntriesConcat(a[1..], b);
    }
  }

  lemma {:induction false} BlanksAreNoEntries(blanks: seq<string>)
    requires forall blank <- blanks :: AllWhite(blank)
    ensures Entries(blanks) == []
  {
    if blanks != [] {
      TrimExact(blanks[0], [], []);
      assert blanks[0] + [] + [] == blanks[0];
      BlanksAreNoEntries(blanks[1..]);
    }
  }

  /** Blank entries, inserted anywhere, change nothing. */
  lemma BlanksChangeNothing<Addr>(c: Config<Addr>, i: nat, blanks: seq<string>, r: Result<HubSelection<Addr>, ConfigError>)
    requires i <= |c.hubNym| && forall blank <- blanks :: AllWhite(blank)
    ensures Selects(c, r) <==> Selects(c.(hubNym := c.hubNym[..i] + blanks + c.hubNym[i..]), r)
  {
    BlankEntries(c.hubNym, i, blanks);
    hide Entries, FineBefore, Fine, Objection;
  }

  lemma BlankEntries(raw: seq<string>, i: nat, blanks: seq<string>)
    requires i <= |raw| && forall blank <- blanks :: AllWhite(blank)
    ensures Entries(raw[..i] + blanks + raw[i..]) == Entries(raw)
  {
    hide Entries;
    BlanksBetween(raw[..i], blanks, raw[i..]);
    assert raw[..i] + raw[i..] == raw;
  }

  lemma BlanksBetween(a: seq<string>, blanks: seq<string>, b: seq<string>)
    requires forall blank <- blanks :: AllWhite(blank)
    ensures Entries(a + blanks + b) == Entries(a + b)
  {
    hide Entries, AllWhite;
    EntriesConcat(a, b);
    EntriesConcat(a + blanks, b);
    EntriesConcat(a, blanks);
    BlanksAreNoEntries(blanks);
  }

  // ----- the selection, from the entries as they are spelled

  /** The blank, the tab and the line ends are white; no printing ASCII character is. */
  lemma WhiteInAscii(c: char)
    ensures c == ' ' || c == '\t' || c == '\n' || c == '\r' ==> IsWhite(c)
    ensures '!' <= c <= '~' ==> !IsWhite(c)
    ensures 'a' <= c <= 'z' || 'A' <= c <= 'Z' || '0' <= c <= '9' || c == '.' || c == '@' ==> !IsWhite(c)
    ensures c == '\U{85}' || c == '\U{A0}' || c == '\U{2028}' || c == '\U{3000}' ==> IsWhite(c)
  {
  }

  /** `raw` is `text` with white space around it. */
  predicate Spaced(raw: string, before: string, text: string, after: string) {
    raw == before + text + after && AllWhite(before) && AllWhite(after) && InkAtEnds(text)
  }

  function NonEmpty(texts: seq<string>): seq<string> {
    if texts == [] then [] else (if texts[0] == [] then [] else [texts[0]]) + NonEmpty(texts[1..])
  }

  lemma {:induction false} EntriesSpelled(raw: seq<string>, before: seq<string>, texts: seq<string>, after: seq<string>)
    requires |raw| == |before| == |texts| == |after|
    requires forall i :: 0 <= i < |raw| ==> Spaced(raw[i], before[i], texts[i], after[i])
    ensures Entries(raw) == NonEmpty(texts)
  {
    if raw != [] {
      assert Spaced(raw[0], before[0], texts[0], after[0]);
      TrimExact(before[0], texts[0], after[0]);
      forall i | 0 <= i < |raw| - 1 ensures Spaced(raw[1..][i], before[1..][i], texts[1..][i], after[1..][i]) {
        assert Spaced(raw[i + 1], before[i + 1], texts[i + 1], after[i + 1]);
      }
      EntriesSpelled(raw[1..], before[1..], texts[1..], after[1..]);
    }
  }

  ghost predicate WellFormed(entry: string) {
    exists i, e, g :: IsSplit(entry, i, e, g)
  }

  /** Entry `n` is well formed and none of the ones before it. */
  ghost predicate Usable(xs: seq<string>, n: nat)
    requires n < |xs|
  {
    WellFormed(xs[n]) && forall j :: 0 <= j < n ==> xs[j] != xs[n]
  }

  /** Entry `n` is the first that is not usable, for the reason `error` gives; being malformed counts first. */
  ghost predicate FirstOffender(xs: seq<string>, n: nat, error: ConfigError) {
    && n < |xs| && !Usable(xs, n) && (forall k: nat :: k < n ==> Usable(xs, k))
    && error == if WellFormed(xs[n]) then DuplicateNymAddress(xs[n]) else MalformedNymAddress(xs[n])
  }

  /**
   The selection in terms of the texts between the white space: what every combination of settings gives,
   the addresses handed on, and the error that names the first text that is malformed or a repetition.
   */
  lemma SelectionSpelled<Addr>(c: Config<Addr>, r: Result<HubSelection<Addr>, ConfigError>,
                               before: seq<string>, texts: seq<string>, after: seq<string>)
    requires Selects(c, r) && |c.hubNym| == |before| == |texts| == |after|
    requires forall i :: 0 <= i < |texts| ==> Spaced(c.hubNym[i], before[i], texts[i], after[i])
    ensures
      var xs := NonEmpty(texts);
      if c.hub.Some? then r == if xs == [] then Ok(Http(c.hub.value)) else Err(BothTransports)
      else if xs == [] then r == if c.requireDiversion then Err(DiversionRequired) else Ok(ForwardOnly)
      else if forall n: nat :: n < |xs| ==> Usable(xs, n) then r == Ok(Nym(xs))
      else r.Err? && exists n: nat :: FirstOffender(xs, n, r.error)
  {
    EntriesSpelled(c.hubNym, before, texts, after);
    hide Entries, NonEmpty, FineBefore, Fine, Objection, Usable, FirstOffender;
    if c.hub.None? {
      AddressesSpelled(NonEmpty(texts), r);
    }
  }

  lemma AddressesSpelled<Addr>(xs: seq<string>, r: Result<HubSelection<Addr>, ConfigError>)
    requires
      || (FineBefore(xs, |xs|) && r == Ok(Nym(xs)))
      || (exists n: nat :: n < |xs| && FineBefore(xs, n) && !Fine(xs, n) && r == Err(Objection(xs, n)))
      || xs == []
    ensures xs != [] ==>
              if forall n: nat :: n < |xs| ==> Usable(xs, n) then r == Ok(Nym(xs))
              else r.Err? && exists n: nat :: FirstOffender(xs, n, r.error)
  {
    forall n: nat | n < |xs| ensures Fine(xs, n) <==> Usable(xs, n) { UsableIsFine(xs, n); }
    hide Usable, Fine;
    if xs != [] && r != Ok(Nym(xs)) {
      var n: nat :| n < |xs| && FineBefore(xs, n) && !Fine(xs, n) && r == Err(Objection(xs, n));
      NymAddressExact(xs[n]);
      assert FirstOffender(xs, n, r.error);
    }
  }

  lemma UsableIsFine(xs: seq<string>, n: nat)
    requires n < |xs|
    ensures Fine(xs, n) <==> Usable(xs, n)
  {
    NymAddressExact(xs[n]);
    hide IsNymAddress, IsSplit;
    if xs[n] in xs[..n] {
      var j :| 0 <= j < n && xs[..n][j] == xs[n];
      assert xs[j] == xs[n];
    }
    forall j | 0 <= j < n && xs[j] == xs[n] ensures xs[n] in xs[..n] { assert xs[..n][j] == xs[n]; }
  }
}
