/**
 Validation of a parsed configuration document and its compilation into band masks
 (`src/config.c`).  The document is the tree that cJSON delivers: members in order, names
 possibly repeated.
 */
module Config {
  import opened Text
  import opened Policy

  datatype Json =
    | Object(members: seq<Member>)
    | Array(items: seq<Json>)
    | String(text: string)
    | Number(value: real)
    | Literal

  datatype Member = Member(name: string, value: Json)

  const MAX_HOST := 255
  const MAX_RADIO_SERIAL := 63
  const MAX_IPV4_TEXT := 15

  /** `cJSON_GetObjectItemCaseSensitive`: the first member of that name. */
  function Item(members: seq<Member>, name: string): Option<Json> {
    if members == [] then None
    else if members[0].name == name then Some(members[0].value)
    else Item(members[1..], name)
  }

  predicate IsFirst(members: seq<Member>, i: int, name: string) {
    0 <= i < |members| && members[i].name == name && forall j :: 0 <= j < i ==> members[j].name != name
  }

  /** What a lookup finds is the value of the first member of that name, and nothing if there is none. */
  lemma {:induction false} ItemIsFirst(members: seq<Member>, name: string) returns (i: nat)
    ensures Item(members, name).None? ==> forall j :: 0 <= j < |members| ==> members[j].name != name
    ensures Item(members, name).Some? ==> IsFirst(members, i, name) && Item(members, name) == Some(members[i].value)
  {
    i := 0;
    if members != [] && members[0].name != name {
      i := ItemIsFirst(members[1..], name);
      i := i + 1;
      assert forall j :: 1 <= j < |members| ==> members[j] == members[1..][j - 1];
    }
  }

  /** `cJSON_GetObjectItem`: the first member whose name agrees up to letter case. */
  function ItemAnyCase(members: seq<Member>, name: string): (r: Option<Json>)
    ensures r.None? ==> forall i :: 0 <= i < |members| ==> !SameText(members[i].name, name)
    ensures r.Some? ==> exists i :: 0 <= i < |members| && SameText(members[i].name, name) && members[i].value == r.value
  {
    if members == [] then None
    else if SameText(members[0].name, name) then Some(members[0].value)
    else ItemAnyCase(members[1..], name)
  }

  // ------------------------------------------------------------------
  // What an acceptable document is
  // ------------------------------------------------------------------

  ghost predicate KnownKeys(members: seq<Member>, allowed: seq<string>) {
    && (forall i :: 0 <= i < |members| ==> members[i].name in allowed)
    && (forall i, j :: 0 <= i < j < |members| ==> members[i].name != members[j].name)
  }

  predicate IsIdCharacter(c: char) {
    IsAlnum(c) || c == '_' || c == '-'
  }

  ghost predicate ValidAntennaId(id: string) {
    1 <= |id| <= MAX_ANTENNA_ID && forall i :: 0 <= i < |id| ==> IsIdCharacter(id[i])
  }

  ghost predicate ValidRadioSerial(serial: string) {
    1 <= |serial| <= MAX_RADIO_SERIAL
    && forall i :: 0 <= i < |serial| ==> IsIdCharacter(serial[i]) || serial[i] == '.'
  }

  /** The antenna list: one to eight well-formed IDs, no two equal up to letter case. */
  ghost predicate AntennaListOk(items: seq<Json>) {
    && 1 <= |items| <= MAX_ANTENNAS
    && (forall i :: 0 <= i < |items| ==> items[i].String? && ValidAntennaId(items[i].text))
    && (forall i, j :: 0 <= i < j < |items| ==> !SameText(items[i].text, items[j].text))
  }

  ghost predicate InterlockOk(root: seq<Member>) {
    match Item(root, "interlock")
    case Some(Object(members)) =>
      KnownKeys(members, ["antennas"])
      && (match Item(members, "antennas")
          case Some(Array(items)) => AntennaListOk(items)
          case _ => false)
    case _ => false
  }

  /** The IDs an acceptable document lists. */
  function AntennaIds(root: seq<Member>): seq<string>
  {
    match Item(root, "interlock")
    case Some(Object(members)) =>
      (match Item(members, "antennas")
       case Some(Array(items)) => seq(|items|, i requires 0 <= i < |items| => if items[i].String? then items[i].text else "")
       case _ => [])
    case _ => []
  }

  /** Item `k` of a policy row names band `b`. */
  predicate Names(items: seq<Json>, k: int, b: int) {
    0 <= k < |items| && items[k].String? && IsBand(items[k].text, b)
  }

  ghost predicate NamesSome(items: seq<Json>, k: int) {
    exists b :: Names(items, k, b)
  }

  /** A policy row: every item names a band, and no band is named twice. */
  ghost predicate RowOk(items: seq<Json>) {
    && (forall k :: 0 <= k < |items| ==> NamesSome(items, k))
    && (forall j, k, b :: Names(items, j, b) && Names(items, k, b) ==> j == k)
  }

  ghost predicate Listed(ids: seq<string>, name: string) {
    exists i :: 0 <= i < |ids| && SameText(ids[i], name)
  }

  /** Rows and antennas are in bijection up to letter case, and every row is well formed. */
  ghost predicate RowsOk(rows: seq<Member>, ids: seq<string>) {
    && RowNamesOk(rows, ids)
    && (forall i {:trigger AntennaRowOk(rows, ids[i])} :: 0 <= i < |ids| ==> AntennaRowOk(rows, ids[i]))
  }

  ghost predicate RowNamesOk(rows: seq<Member>, ids: seq<string>) {
    && (forall r {:trigger Listed(ids, rows[r].name)} :: 0 <= r < |rows| ==> Listed(ids, rows[r].name))
    && (forall r, s :: 0 <= r < s < |rows| ==> !SameText(rows[r].name, rows[s].name))
  }

  ghost predicate AntennaRowOk(rows: seq<Member>, id: string) {
    exists r :: IsRow(rows, r, id) && RowOk(rows[r].value.items)
  }

  /** Row `r` is a list that belongs to the antenna `id`. */
  predicate IsRow(rows: seq<Member>, r: int, id: string) {
    0 <= r < |rows| && SameText(rows[r].name, id) && rows[r].value.Array?
  }

  function PolicyRows(root: seq<Member>): Option<seq<Member>> {
    match Item(root, "policy")
    case Some(Object(rows)) => Some(rows)
    case _ => None
  }

  ghost predicate PolicyOk(root: seq<Member>) {
    PolicyRows(root).Some? && RowsOk(PolicyRows(root).value, AntennaIds(root))
  }

  /** The document allows `antenna` on frequency `f`: its row lists the band that holds `f`. */
  ghost predicate DocumentAllows(root: seq<Member>, f: Double, antenna: string) {
    PolicyRows(root).Some? && RowsAllow(PolicyRows(root).value, f, antenna)
  }

  ghost predicate RowsAllow(rows: seq<Member>, f: Double, antenna: string) {
    exists r, k, b :: IsRow(rows, r, antenna) && Names(rows[r].value.items, k, b) && InBand(f, b)
  }

  // ------------------------------------------------------------------
  // What the compiled form means
  // ------------------------------------------------------------------

  /** The mask of an entry holds exactly the bands of the row that belongs to it. */
  ghost predicate MaskOf(mask: bv16, items: seq<Json>) {
    && mask < 0x800
    && (forall b :: HasBand(mask, b) <==> exists k :: Names(items, k, b))
    && |Bits(mask)| == |items|
  }

  ghost predicate EntryOf(entry: AntennaPolicy, rows: seq<Member>) {
    exists r :: IsRow(rows, r, entry.id) && MaskOf(entry.allowedBands, rows[r].value.items)
  }

  ghost predicate Compiled(antennas: seq<AntennaPolicy>, root: seq<Member>) {
    && |antennas| == |AntennaIds(root)|
    && (forall i :: 0 <= i < |antennas| ==> antennas[i].id == AntennaIds(root)[i])
    && PolicyRows(root).Some?
    && (forall i :: 0 <= i < |antennas| ==> EntryOf(antennas[i], PolicyRows(root).value))
  }

  /** Looking an antenna up finds an entry exactly when some entry has its name. */
  lemma {:induction false} FirstNamedExists(antennas: seq<AntennaPolicy>, id: string, i: nat) returns (first: nat)
    requires i < |antennas| && SameText(antennas[i].id, id)
    ensures FirstNamed(antennas, id, first)
  {
    first := 0;
    while !SameText(antennas[first].id, id)
      invariant first <= i
      invariant forall k :: 0 <= k < first ==> !SameText(antennas[k].id, id)
      decreases i - first
    {
      first := first + 1;
    }
  }

  lemma PermittedIsListed(rows: seq<Member>, antennas: seq<AntennaPolicy>, antenna: string, i: int, b: int)
    requires forall j :: 0 <= j < |antennas| ==> EntryOf(antennas[j], rows)
    requires Grants(antennas, antenna, i, b)
    ensures exists r, k :: IsRow(rows, r, antenna) && Names(rows[r].value.items, k, b)
  {
    assert EntryOf(antennas[i], rows);
    var r :| IsRow(rows, r, antennas[i].id) && MaskOf(antennas[i].allowedBands, rows[r].value.items);
    var k :| Names(rows[r].value.items, k, b);
    assert IsRow(rows, r, antenna);
  }

  lemma ListedIsPermitted(rows: seq<Member>, antennas: seq<AntennaPolicy>, antenna: string, r: int, k: int, b: int)
    requires forall j :: 0 <= j < |antennas| ==> EntryOf(antennas[j], rows)
    requires forall p, q :: 0 <= p < q < |rows| ==> !SameText(rows[p].name, rows[q].name)
    requires IsRow(rows, r, antenna)
    requires exists i :: 0 <= i < |antennas| && SameText(antennas[i].id, rows[r].name)
    requires Names(rows[r].value.items, k, b)
    ensures exists i :: Grants(antennas, antenna, i, b)
  {
    var i :| 0 <= i < |antennas| && SameText(antennas[i].id, rows[r].name);
    var first := FirstNamedExists(antennas, antenna, i);
    assert EntryOf(antennas[first], rows);
    var s :| IsRow(rows, s, antennas[first].id) && MaskOf(antennas[first].allowedBands, rows[s].value.items);
    assert s == r;
    assert Grants(antennas, antenna, first, b);
  }

  /** The evaluator, run on the compiled masks, answers what the document says. */
  lemma ConfigurationMeansWhatItSays(root: seq<Member>, antennas: seq<AntennaPolicy>, f: Double, antenna: string)
    requires InterlockOk(root) && PolicyOk(root) && Compiled(antennas, root)
    ensures Permits(antennas, true, f, antenna) <==> DocumentAllows(root, f, antenna)
  {
    var rows := PolicyRows(root).value;
    if Permits(antennas, true, f, antenna) {
      var b, i :| InBand(f, b) && Grants(antennas, antenna, i, b);
      PermittedIsListed(rows, antennas, antenna, i, b);
    }
    if RowsAllow(rows, f, antenna) {
      var r, k, b :| IsRow(rows, r, antenna) && Names(rows[r].value.items, k, b) && InBand(f, b);
      RowNameIsAnId(root, antennas, r);
      ListedIsPermitted(rows, antennas, antenna, r, k, b);
      assert |LowerAll(antenna)| == |LowerAll(rows[r].name)|;
    }
  }

  /** Every entry has an ID of 1 to 31 letters, digits, `_` or `-`, and no two agree up to letter case. */
  ghost predicate DifferentIds(antennas: seq<AntennaPolicy>) {
    && (forall i :: 0 <= i < |antennas| ==>
          1 <= |antennas[i].id| <= 31
          && forall k :: 0 <= k < |antennas[i].id| ==>
            IsAlnum(antennas[i].id[k]) || antennas[i].id[k] == '_' || antennas[i].id[k] == '-')
    && (forall i, j :: 0 <= i < j < |antennas| ==> !SameText(antennas[i].id, antennas[j].id))
  }

  lemma KeysAreKnown(members: seq<Member>, keys: seq<string>)
    requires KnownKeys(members, keys)
    ensures forall m :: m in members ==> m.name in keys
  {
  }

  lemma IdsAreDifferent(root: seq<Member>, antennas: seq<AntennaPolicy>)
    requires InterlockOk(root) && Compiled(antennas, root)
    ensures 1 <= |antennas| && DifferentIds(antennas)
  {
    hide SameText, IsAlnum, EntryOf;
    var ids := AntennaIds(root);
    forall i | 0 <= i < |antennas|
      ensures ValidAntennaId(antennas[i].id)
    {
      assert antennas[i].id == ids[i];
    }
    forall i, j | 0 <= i < j < |antennas| ensures !SameText(antennas[i].id, antennas[j].id) {
      assert antennas[i].id == ids[i] && antennas[j].id == ids[j];
    }
  }

  lemma DocumentIsMeant(root: seq<Member>, antennas: seq<AntennaPolicy>)
    requires InterlockOk(root) && PolicyOk(root) && Compiled(antennas, root)
    ensures forall f, antenna :: Permits(antennas, true, f, antenna) <==> DocumentAllows(root, f, antenna)
  {
    hide InterlockOk, PolicyOk, Compiled, Permits, DocumentAllows;
    forall f, antenna ensures Permits(antennas, true, f, antenna) <==> DocumentAllows(root, f, antenna) {
      ConfigurationMeansWhatItSays(root, antennas, f, antenna);
    }
  }

  lemma RowNameIsAnId(root: seq<Member>, antennas: seq<AntennaPolicy>, r: nat)
    requires InterlockOk(root) && PolicyOk(root) && Compiled(antennas, root)
    requires r < |PolicyRows(root).value|
    ensures exists i :: 0 <= i < |antennas| && SameText(antennas[i].id, PolicyRows(root).value[r].name)
    ensures PolicyRows(root).value[r].name != ""
  {
    var ids, name := AntennaIds(root), PolicyRows(root).value[r].name;
    assert Listed(ids, name);
    var i :| 0 <= i < |ids| && SameText(ids[i], name);
    assert antennas[i].id == ids[i];
    assert ValidAntennaId(ids[i]);
    assert |LowerAll(ids[i])| == |LowerAll(name)|;
  }

  // ------------------------------------------------------------------
  // The radio section
  // ------------------------------------------------------------------

  datatype RadioMode = Direct | Discovery

  /** A setting may be absent; a present one must be an integer in range. */
  predicate SettingOk(setting: Option<Json>, low: int, high: int) {
    match setting
    case None => true
    case Some(Number(v)) => low as real <= v <= high as real && v == v.Floor as real
    case Some(_) => false
  }

  function SettingOr(setting: Option<Json>, default: int): int {
    match setting
    case Some(Number(v)) => v.Floor
    case _ => default
  }

  /** The loaded number is the one that the member of this name carries, or else the default. */
  ghost predicate NumberLoaded(members: seq<Member>, name: string, loaded: int, default: int) {
    && (forall i :: 0 <= i < |members| && members[i].name == name && members[i].value.Number? ==>
          loaded as real == members[i].value.value)
    && ((forall i :: 0 <= i < |members| ==> members[i].name != name) ==> loaded == default)
  }

  /** The loaded text is the one that the member of this name carries, or else empty. */
  ghost predicate TextLoaded(members: seq<Member>, name: string, loaded: string) {
    && (forall i :: 0 <= i < |members| && members[i].name == name && members[i].value.String? ==>
          loaded == members[i].value.text)
    && ((forall i :: 0 <= i < |members| ==> members[i].name != name) ==> loaded == "")
  }

  ghost predicate Has(members: seq<Member>, name: string) {
    exists i :: 0 <= i < |members| && members[i].name == name
  }

  /** What the selector fields of an accepted radio section say, member by member. */
  ghost predicate SelectorsLoaded(radio: seq<Member>, ipv4: string -> bool, mode: RadioMode, host: string, serial: string,
                                  ip: string) {
    && (mode == Direct <==> Has(radio, "host"))
    && (mode == Discovery <==> Has(radio, "serial") || Has(radio, "discovery_ip"))
    && (Has(radio, "host") ==> 1 <= |host| <= 255)
    && (Has(radio, "serial") ==> ValidRadioSerial(serial))
    && (Has(radio, "discovery_ip") ==> |ip| <= 15 && ipv4(ip))
    && TextLoaded(radio, "host", host) && TextLoaded(radio, "serial", serial) && TextLoaded(radio, "discovery_ip", ip)
  }

  /** The same for the numbers. */
  ghost predicate TimingLoaded(radio: seq<Member>, port: int, reconnect: int, reconnectMax: int, reconnectLog: int) {
    && NumberLoaded(radio, "port", port, 4992) && 1 <= port <= 65535
    && NumberLoaded(radio, "reconnect_seconds", reconnect, 3) && 1 <= reconnect <= 300
    && NumberLoaded(radio, "reconnect_max_seconds", reconnectMax, if reconnect > 30 then reconnect else 30)
    && reconnect <= reconnectMax <= 3600
    && NumberLoaded(radio, "reconnect_log_seconds", reconnectLog, 300) && 1 <= reconnectLog <= 86400
    && (!Has(radio, "host") ==>
          !Has(radio, "port") && !Has(radio, "reconnect_seconds") && !Has(radio, "reconnect_max_seconds")
          && !Has(radio, "reconnect_log_seconds"))
  }

  lemma NumberIsLoaded(members: seq<Member>, name: string, low: int, high: int, default: int)
    requires forall i, j :: 0 <= i < j < |members| ==> members[i].name != members[j].name
    requires SettingOk(Item(members, name), low, high)
    ensures NumberLoaded(members, name, SettingOr(Item(members, name), default), default)
    ensures Item(members, name).Some? ==> low <= SettingOr(Item(members, name), default) <= high
  {
    hide Item;
    var i := ItemIsFirst(members, name);
  }

  lemma TextIsLoaded(members: seq<Member>, name: string)
    requires forall i, j :: 0 <= i < j < |members| ==> members[i].name != members[j].name
    ensures TextLoaded(members, name, TextOr(Item(members, name)))
  {
    hide Item;
    var i := ItemIsFirst(members, name);
  }

  lemma ItemIsMember(members: seq<Member>, name: string)
    ensures Item(members, name).Some? <==> Has(members, name)
  {
    hide Item;
    var i := ItemIsFirst(members, name);
  }

  /** The specification functions of the section load what its members carry. */
  lemma SelectorsAreLoaded(radio: seq<Member>, mode: RadioMode, ipv4: string -> bool)
    requires KnownKeys(radio, RADIO_KEYS) && SelectorsOk(radio, ipv4)
    requires mode == Direct <==> Item(radio, "host").Some?
    ensures SelectorsLoaded(radio, ipv4, mode, TextOr(Item(radio, "host")), TextOr(Item(radio, "serial")),
                            TextOr(Item(radio, "discovery_ip")))
  {
    hide TextLoaded, Item, Has;
    ItemIsMember(radio, "host");
    ItemIsMember(radio, "serial");
    ItemIsMember(radio, "discovery_ip");
    TextIsLoaded(radio, "host");
    TextIsLoaded(radio, "serial");
    TextIsLoaded(radio, "discovery_ip");
  }

  lemma TimingIsLoaded(radio: seq<Member>)
    requires KnownKeys(radio, RADIO_KEYS) && TimingOk(radio)
    ensures TimingLoaded(radio, SettingOr(Item(radio, "port"), 4992), Reconnect(radio),
                         ReconnectMax(radio), SettingOr(Item(radio, "reconnect_log_seconds"), 300))
  {
    hide NumberLoaded, Item, Has;
    ItemIsMember(radio, "host");
    ItemIsMember(radio, "port");
    ItemIsMember(radio, "reconnect_seconds");
    ItemIsMember(radio, "reconnect_max_seconds");
    ItemIsMember(radio, "reconnect_log_seconds");
    NumberIsLoaded(radio, "port", 1, 65535, 4992);
    NumberIsLoaded(radio, "reconnect_seconds", 1, 300, 3);
    NumberIsLoaded(radio, "reconnect_max_seconds", 1, 3600, if Reconnect(radio) > 30 then Reconnect(radio) else 30);
    NumberIsLoaded(radio, "reconnect_log_seconds", 1, 86400, 300);
  }

  const RADIO_KEYS := ["host", "serial", "discovery_ip", "port", "reconnect_seconds",
                       "reconnect_max_seconds", "reconnect_log_seconds"]

  function Reconnect(radio: seq<Member>): int {
    SettingOr(Item(radio, "reconnect_seconds"), 3)
  }

  function ReconnectMax(radio: seq<Member>): int {
    SettingOr(Item(radio, "reconnect_max_seconds"), if Reconnect(radio) > 30 then Reconnect(radio) else 30)
  }

  /** The three selectors: a host alone, or a serial number and/or an IPv4 address. */
  ghost predicate SelectorsOk(radio: seq<Member>, ipv4: string -> bool) {
    var host, serial, ip := Item(radio, "host"), Item(radio, "serial"), Item(radio, "discovery_ip");
    && (host.Some? <==> serial.None? && ip.None?)
    && (host.Some? ==> host.value.String? && 1 <= |host.value.text| <= MAX_HOST)
    && (serial.Some? ==> serial.value.String? && ValidRadioSerial(serial.value.text))
    && (ip.Some? ==> ip.value.String? && |ip.value.text| <= MAX_IPV4_TEXT && ipv4(ip.value.text))
  }

  ghost predicate TimingOk(radio: seq<Member>) {
    && SettingOk(Item(radio, "port"), 1, 65535)
    && SettingOk(Item(radio, "reconnect_seconds"), 1, 300)
    && SettingOk(Item(radio, "reconnect_max_seconds"), 1, 3600)
    && SettingOk(Item(radio, "reconnect_log_seconds"), 1, 86400)
    && Reconnect(radio) <= ReconnectMax(radio)
    && (Item(radio, "host").None? ==>
          Item(radio, "port").None? && Item(radio, "reconnect_seconds").None?
          && Item(radio, "reconnect_max_seconds").None? && Item(radio, "reconnect_log_seconds").None?)
  }

  ghost predicate RadioOk(root: seq<Member>, ipv4: string -> bool) {
    match Item(root, "radio")
    case Some(Object(radio)) => KnownKeys(radio, RADIO_KEYS) && SelectorsOk(radio, ipv4) && TimingOk(radio)
    case _ => false
  }

  ghost predicate DocumentOk(document: Json, ipv4: string -> bool) {
    && document.Object?
    && KnownKeys(document.members, ["radio", "interlock", "policy"])
    && RadioOk(document.members, ipv4)
    && InterlockOk(document.members)
    && PolicyOk(document.members)
  }

  function TextOr(item: Option<Json>): string {
    match item
    case Some(String(text)) => text
    case _ => ""
  }

  method RejectUnknownKeys(members: seq<Member>, allowed: seq<string>) returns (ok: bool)
    ensures ok <==> KnownKeys(members, allowed)
  {
    var i := 0;
    while i < |members|
      invariant 0 <= i <= |members|
      invariant forall k :: 0 <= k < i ==> members[k].name in allowed
      invariant forall k, l :: 0 <= k < i && k < l < |members| ==> members[k].name != members[l].name
    {
      if members[i].name !in allowed {
        return false;
      }
      var later := i + 1;
      while later < |members|
        invariant i < later <= |members|
        invariant forall l :: i < l < later ==> members[i].name != members[l].name
      {
        if members[i].name == members[later].name {
          return false;
        }
        later := later + 1;
      }
      i := i + 1;
    }
    return true;
  }

  method IsValidAntennaId(id: string) returns (ok: bool)
    ensures ok <==> ValidAntennaId(id)
  {
    if |id| == 0 || |id| > MAX_ANTENNA_ID {
      return false;
    }
    var index := 0;
    while index < |id|
      invariant 0 <= index <= |id|
      invariant forall i :: 0 <= i < index ==> IsIdCharacter(id[i])
    {
      if !IsAlnum(id[index]) && id[index] != '_' && id[index] != '-' {
        return false;
      }
      index := index + 1;
    }
    return true;
  }

  method IsValidRadioSerial(serial: string) returns (ok: bool)
    ensures ok <==> ValidRadioSerial(serial)
  {
    if |serial| == 0 || |serial| > MAX_RADIO_SERIAL {
      return false;
    }
    var index := 0;
    while index < |serial|
      invariant 0 <= index <= |serial|
      invariant forall i :: 0 <= i < index ==> IsIdCharacter(serial[i]) || serial[i] == '.'
    {
      if !IsAlnum(serial[index]) && serial[index] != '-' && serial[index] != '_' && serial[index] != '.' {
        return false;
      }
      index := index + 1;
    }
    return true;
  }

  /** The bands that the first `n` items of a row name. */
  ghost predicate MaskOfPrefix(mask: bv16, items: seq<Json>, n: nat) {
    && mask < 0x800
    && (forall b :: HasBand(mask, b) <==> exists k :: 0 <= k < n && Names(items, k, b))
    && |Bits(mask)| == n
  }

  lemma BandInBits(mask: bv16, b: int)
    ensures HasBand(mask, b) <==> b in Bits(mask)
  {
  }

  /** Setting the bit of the next item keeps the mask equal to what the row says so far. */
  lemma MaskGrows(mask: bv16, items: seq<Json>, n: nat, b: int)
    requires n < |items| && MaskOfPrefix(mask, items, n)
    requires Names(items, n, b) && !HasBand(mask, b)
    ensures MaskOfPrefix(mask | Flag(b), items, n + 1)
  {
    hide Flag, HasBand, Bits, SameText;
    OrAddsBand(mask, b);
    var next := mask | Flag(b);
    BandInBits(mask, b);
    forall c ensures HasBand(next, c) <==> exists k :: 0 <= k < n + 1 && Names(items, k, c) {
      BandInBits(mask, c);
      BandInBits(next, c);
      if Names(items, n, c) {
        BandNameUnique(items[n].text, b, c);
      }
      if HasBand(mask, c) {
        var k :| 0 <= k < n && Names(items, k, c);
      }
    }
    assert b !in Bits(mask);
  }

  class Config {
    var radioMode: RadioMode
    var host: string
    var radioSerial: string
    var discoveryIp: string
    var port: nat
    var reconnectSeconds: int
    var reconnectMaxSeconds: int
    var reconnectLogSeconds: int
    var antennaCount: nat
    const antennas: array<AntennaPolicy>

    /** `memset(config, 0, sizeof(*config))`. */
    constructor ()
      ensures antennaCount == 0 && antennas.Length == MAX_ANTENNAS && fresh(antennas)
      ensures radioMode == Direct && host == "" && radioSerial == "" && discoveryIp == ""
      ensures port == 0 && reconnectSeconds == reconnectMaxSeconds == reconnectLogSeconds == 0
      ensures forall i :: 0 <= i < MAX_ANTENNAS ==> antennas[i] == AntennaPolicy("", 0)
    {
      radioMode, host, radioSerial, discoveryIp := Direct, "", "", "";
      port, reconnectSeconds, reconnectMaxSeconds, reconnectLogSeconds := 0, 0, 0, 0;
      antennaCount := 0;
      antennas := new AntennaPolicy[MAX_ANTENNAS](_ => AntennaPolicy("", 0));
    }

    function Antennas(): seq<AntennaPolicy>
      reads this, antennas
      requires antennaCount <= antennas.Length
    {
      antennas[..antennaCount]
    }

    /** `parse_radio`, first half: exactly one way of selecting the radio. */
    method ParseSelectors(radio: seq<Member>, ipv4: string -> bool) returns (ok: bool)
      requires host == "" && radioSerial == "" && discoveryIp == ""
      modifies this`radioMode, this`host, this`radioSerial, this`discoveryIp
      ensures ok <==> SelectorsOk(radio, ipv4)
      ensures ok ==>
        && (radioMode == Direct <==> Item(radio, "host").Some?)
        && host == TextOr(Item(radio, "host"))
        && radioSerial == TextOr(Item(radio, "serial"))
        && discoveryIp == TextOr(Item(radio, "discovery_ip"))
    {
      var hostItem, serialItem, ipItem := Item(radio, "host"), Item(radio, "serial"), Item(radio, "discovery_ip");
      if hostItem.None? && serialItem.None? && ipItem.None? {
        return false;
      }
      if hostItem.Some? && (serialItem.Some? || ipItem.Some?) {
        return false;
      }
      if hostItem.Some?
         && (!hostItem.value.String? || hostItem.value.text == "" || |hostItem.value.text| > MAX_HOST) {
        return false;
      }
      if serialItem.Some? {
        var serialOk := false;
        if serialItem.value.String? {
          serialOk := IsValidRadioSerial(serialItem.value.text);
        }
        if !serialOk {
          return false;
        }
      }
      if ipItem.Some?
         && (!ipItem.value.String? || |ipItem.value.text| > MAX_IPV4_TEXT || !ipv4(ipItem.value.text)) {
        return false;
      }
      radioMode := if hostItem.None? then Discovery else Direct;
      if hostItem.Some? {
        host := hostItem.value.text;
      }
      if serialItem.Some? {
        radioSerial := serialItem.value.text;
      }
      if ipItem.Some? {
        discoveryIp := ipItem.value.text;
      }
      return true;
    }

    /** `parse_radio`, second half: port and timing, which only a fixed host may set. */
    method ParseTiming(radio: seq<Member>) returns (ok: bool)
      requires radioMode == Direct <==> Item(radio, "host").Some?
      modifies this`port, this`reconnectSeconds, this`reconnectMaxSeconds, this`reconnectLogSeconds
      ensures ok <==> TimingOk(radio)
      ensures ok ==>
        && port == SettingOr(Item(radio, "port"), 4992)
        && reconnectSeconds == Reconnect(radio)
        && reconnectMaxSeconds == ReconnectMax(radio)
        && reconnectLogSeconds == SettingOr(Item(radio, "reconnect_log_seconds"), 300)
    {
      var portItem := Item(radio, "port");
      if !SettingOk(portItem, 1, 65535) {
        return false;
      }
      port := SettingOr(portItem, 4992);
      var reconnect := Item(radio, "reconnect_seconds");
      if !SettingOk(reconnect, 1, 300) {
        return false;
      }
      reconnectSeconds := SettingOr(reconnect, 3);
      var reconnectMax := Item(radio, "reconnect_max_seconds");
      if !SettingOk(reconnectMax, 1, 3600) {
        return false;
      }
      reconnectMaxSeconds := SettingOr(reconnectMax, if reconnectSeconds > 30 then reconnectSeconds else 30);
      if reconnectMaxSeconds < reconnectSeconds {
        return false;
      }
      var reconnectLog := Item(radio, "reconnect_log_seconds");
      if radioMode == Discovery
         && (portItem.Some? || reconnect.Some? || reconnectMax.Some? || reconnectLog.Some?) {
        return false;
      }
      if !SettingOk(reconnectLog, 1, 86400) {
        return false;
      }
      reconnectLogSeconds := SettingOr(reconnectLog, 300);
      return true;
    }

    method ParseRadio(root: seq<Member>, ipv4: string -> bool) returns (ok: bool)
      requires host == "" && radioSerial == "" && discoveryIp == ""
      modifies this
      ensures antennaCount == old(antennaCount)
      ensures ok <==> RadioOk(root, ipv4)
      ensures ok ==> RadioLoaded(Item(root, "radio").value.members) && Says(Item(root, "radio").value.members, ipv4)
    {
      hide SelectorsLoaded, TimingLoaded, Item;
      var section := Item(root, "radio");
      if section.None? || !section.value.Object? {
        return false;
      }
      var radio := section.value.members;
      ok := RejectUnknownKeys(radio, RADIO_KEYS);
      if ok {
        ok := ParseSelectors(radio, ipv4);
      }
      if ok {
        ok := ParseTiming(radio);
      }
      if ok {
        SelectorsAreLoaded(radio, radioMode, ipv4);
        TimingIsLoaded(radio);
      }
    }

    /** The fields carry what the members of the section say. */
    ghost predicate Says(radio: seq<Member>, ipv4: string -> bool)
      reads this
    {
      && SelectorsLoaded(radio, ipv4, radioMode, host, radioSerial, discoveryIp)
      && TimingLoaded(radio, port, reconnectSeconds, reconnectMaxSeconds, reconnectLogSeconds)
    }

    /** The fields carry the document's settings or their defaults. */
    ghost predicate RadioLoaded(radio: seq<Member>)
      reads this
    {
      && (radioMode == Direct <==> Item(radio, "host").Some?)
      && host == TextOr(Item(radio, "host"))
      && radioSerial == TextOr(Item(radio, "serial"))
      && discoveryIp == TextOr(Item(radio, "discovery_ip"))
      && port == SettingOr(Item(radio, "port"), 4992)
      && reconnectSeconds == Reconnect(radio)
      && reconnectMaxSeconds == ReconnectMax(radio)
      && reconnectLogSeconds == SettingOr(Item(radio, "reconnect_log_seconds"), 300)
    }

    method ParseAntennas(root: seq<Member>) returns (ok: bool)
      requires antennaCount == 0 && antennas.Length == MAX_ANTENNAS
      requires forall i :: 0 <= i < MAX_ANTENNAS ==> antennas[i].allowedBands == 0
      modifies this`antennaCount, antennas
      ensures ok <==> InterlockOk(root)
      ensures antennaCount <= MAX_ANTENNAS
      ensures forall i :: 0 <= i < MAX_ANTENNAS ==> antennas[i].allowedBands == 0
      ensures ok ==> antennaCount == |AntennaIds(root)|
      ensures ok ==> forall i :: 0 <= i < antennaCount ==> antennas[i].id == AntennaIds(root)[i]
    {
      var interlock := Item(root, "interlock");
      if interlock.None? || !interlock.value.Object? {
        return false;
      }
      var known := RejectUnknownKeys(interlock.value.members, ["antennas"]);
      if !known {
        return false;
      }
      var list := Item(interlock.value.members, "antennas");
      if list.None? || !list.value.Array? || |list.value.items| < 1 || |list.value.items| > MAX_ANTENNAS {
        return false;
      }
      var items := list.value.items;
      var next := 0;
      while next < |items|
        invariant 0 <= next <= |items| && antennaCount == next
        invariant forall i :: 0 <= i < MAX_ANTENNAS ==> antennas[i].allowedBands == 0
        invariant forall i :: 0 <= i < next ==> items[i].String? && ValidAntennaId(items[i].text)
        invariant forall i :: 0 <= i < next ==> antennas[i].id == items[i].text
        invariant forall i, j :: 0 <= i < j < next ==> !SameText(items[i].text, items[j].text)
      {
        var valid := false;
        if items[next].String? {
          valid := IsValidAntennaId(items[next].text);
        }
        if !valid {
          return false;
        }
        var index := 0;
        while index < antennaCount
          invariant 0 <= index <= antennaCount
          invariant forall i :: 0 <= i < index ==> !SameText(items[i].text, items[next].text)
        {
          if SameText(antennas[index].id, items[next].text) {
            return false;
          }
          index := index + 1;
        }
        antennas[antennaCount] := AntennaPolicy(items[next].text, antennas[antennaCount].allowedBands);
        antennaCount := antennaCount + 1;
        next := next + 1;
      }
      return true;
    }

    /** The inner loop of `parse_policy`: the bands of one antenna, one bit at a time. */
    method CompileRow(index: nat, bands: seq<Json>) returns (ok: bool)
      requires index < antennas.Length && antennas[index].allowedBands == 0
      modifies antennas
      ensures ok <==> RowOk(bands)
      ensures ok ==> MaskOf(antennas[index].allowedBands, bands)
      ensures antennas[index].id == old(antennas[index].id)
      ensures forall i :: 0 <= i < antennas.Length && i != index ==> antennas[i] == old(antennas[i])
    {
      var next := 0;
      assert MaskOfPrefix(0, bands, 0) by {
        assert Bits(0) == {};
      }
      while next < |bands|
        invariant 0 <= next <= |bands|
        invariant MaskOfPrefix(antennas[index].allowedBands, bands, next)
        invariant forall k :: 0 <= k < next ==> NamesSome(bands, k)
        invariant forall j, k, b :: 0 <= j < next && 0 <= k < next && Names(bands, j, b) && Names(bands, k, b) ==> j == k
        invariant antennas[index].id == old(antennas[index].id)
        invariant forall i :: 0 <= i < antennas.Length && i != index ==> antennas[i] == old(antennas[i])
      {
        var bandIndex := -1;
        if bands[next].String? {
          bandIndex := BandIndex(bands[next].text);
        }
        if bandIndex < 0 {
          assert !NamesSome(bands, next);
          return false;
        }
        assert Names(bands, next, bandIndex);
        forall b | Names(bands, next, b) ensures b == bandIndex {
          BandNameUnique(bands[next].text, b, bandIndex);
        }
        if HasBand(antennas[index].allowedBands, bandIndex) {
          return false;
        }
        MaskGrows(antennas[index].allowedBands, bands, next, bandIndex);
        antennas[index] := antennas[index].(allowedBands := antennas[index].allowedBands | Flag(bandIndex));
        next := next + 1;
      }
      return true;
    }

    /** `parse_policy`, first loop: every row belongs to a listed antenna, and to one of its own. */
    method CheckRowNames(rows: seq<Member>, ghost ids: seq<string>) returns (ok: bool)
      requires antennaCount == |ids| <= antennas.Length
      requires forall i :: 0 <= i < antennaCount ==> antennas[i].id == ids[i]
      ensures ok <==> RowNamesOk(rows, ids)
    {
      var entry := 0;
      while entry < |rows|
        invariant 0 <= entry <= |rows|
        invariant forall r :: 0 <= r < entry ==> Listed(ids, rows[r].name)
        invariant forall r, s :: 0 <= r < entry && r < s < |rows| ==> !SameText(rows[r].name, rows[s].name)
      {
        var found := FindAntenna(Antennas(), rows[entry].name);
        if found.None? {
          assert forall i :: 0 <= i < |ids| ==> ids[i] == Antennas()[i].id;
          assert !Listed(ids, rows[entry].name);
          return false;
        }
        assert SameText(ids[found.value], rows[entry].name);
        var later := entry + 1;
        while later < |rows|
          invariant entry < later <= |rows|
          invariant forall s :: entry < s < later ==> !SameText(rows[entry].name, rows[s].name)
        {
          if SameText(rows[entry].name, rows[later].name) {
            return false;
          }
          later := later + 1;
        }
        entry := entry + 1;
      }
      return true;
    }

    /** `parse_policy`, second loop: compile the row of each antenna. */
    method CompileRows(rows: seq<Member>, ghost ids: seq<string>) returns (ok: bool)
      requires antennaCount == |ids| <= antennas.Length
      requires forall i :: 0 <= i < antennaCount ==> antennas[i].id == ids[i] && antennas[i].allowedBands == 0
      requires forall p, q :: 0 <= p < q < |rows| ==> !SameText(rows[p].name, rows[q].name)
      modifies antennas
      ensures ok <==> forall i {:trigger AntennaRowOk(rows, ids[i])} :: 0 <= i < |ids| ==> AntennaRowOk(rows, ids[i])
      ensures forall i :: 0 <= i < antennaCount ==> antennas[i].id == ids[i]
      ensures ok ==> forall i :: 0 <= i < antennaCount ==> EntryOf(antennas[i], rows)
    {
      hide RowOk, MaskOf;
      var index := 0;
      while index < antennaCount
        invariant 0 <= index <= antennaCount
        invariant forall i :: 0 <= i < antennaCount ==> antennas[i].id == ids[i]
        invariant forall i :: index <= i < antennaCount ==> antennas[i].allowedBands == 0
        invariant forall i :: 0 <= i < index ==> AntennaRowOk(rows, ids[i])
        invariant forall i :: 0 <= i < index ==> EntryOf(antennas[i], rows)
      {
        var bands := ItemAnyCase(rows, antennas[index].id);
        OnlyRow(rows, ids[index]);
        if bands.None? || !bands.value.Array? {
          return false;
        }
        ghost var r :| 0 <= r < |rows| && SameText(rows[r].name, ids[index]) && rows[r].value == bands.value;
        assert IsRow(rows, r, ids[index]);
        label before:
        var rowOk := CompileRow(index, bands.value.items);
        if !rowOk {
          return false;
        }
        assert EntryOf(antennas[index], rows);
        assert forall i :: 0 <= i < index ==> antennas[i] == old@before(antennas[i]);
        index := index + 1;
      }
      return true;
    }

    method ParsePolicy(root: seq<Member>) returns (ok: bool)
      requires antennaCount == |AntennaIds(root)| <= antennas.Length
      requires forall i :: 0 <= i < antennaCount ==> antennas[i].id == AntennaIds(root)[i]
      requires forall i :: 0 <= i < antennaCount ==> antennas[i].allowedBands == 0
      modifies antennas
      ensures ok <==> PolicyOk(root)
      ensures ok ==> Compiled(Antennas(), root)
    {
      var policy := Item(root, "policy");
      if policy.None? || !policy.value.Object? {
        return false;
      }
      var rows := policy.value.members;
      ghost var ids := AntennaIds(root);
      assert PolicyRows(root) == Some(rows);
      ok := CheckRowNames(rows, ids);
      if ok {
        ok := CompileRows(rows, ids);
      }
    }

    /** `ag_config_load` from the parsed document on.  It accepts exactly the documents that
        `DocumentOk` describes, and the fields it leaves behind decide as the document says. */
    method Load(document: Json, ipv4: string -> bool) returns (ok: bool)
      requires antennaCount == 0 && antennas.Length == MAX_ANTENNAS
      requires host == "" && radioSerial == "" && discoveryIp == ""
      requires forall i :: 0 <= i < MAX_ANTENNAS ==> antennas[i].allowedBands == 0
      modifies this, antennas
      ensures ok <==> DocumentOk(document, ipv4)
      ensures ok ==> antennaCount <= MAX_ANTENNAS && Compiled(Antennas(), document.members)
      ensures ok ==> forall f, antenna ::
        Permits(Antennas(), true, f, antenna) <==> DocumentAllows(document.members, f, antenna)
      ensures ok ==> RadioLoaded(Item(document.members, "radio").value.members)
      ensures ok ==> Says(Item(document.members, "radio").value.members, ipv4)
      ensures ok ==> 1 <= antennaCount && DifferentIds(Antennas())
      ensures ok ==> forall m :: m in document.members ==> m.name in ["radio", "interlock", "policy"]
      ensures ok ==> forall m :: m in Item(document.members, "radio").value.members ==> m.name in [
        "host", "serial", "discovery_ip", "port", "reconnect_seconds", "reconnect_max_seconds", "reconnect_log_seconds"]
      ensures ok ==> 1 <= reconnectSeconds <= reconnectMaxSeconds <= 3600 && 1 <= reconnectLogSeconds <= 86400
    {
      hide SelectorsLoaded, TimingLoaded, SelectorsOk, Item, KnownKeys, RowsOk, EntryOf, DocumentAllows, Permits, AntennaListOk, DifferentIds;
      if !document.Object? {
        return false;
      }
      var root := document.members;
      ok := RejectUnknownKeys(root, ["radio", "interlock", "policy"]);
      if ok {
        ok := ParseRadio(root, ipv4);
      }
      if ok {
        ok := ParseAntennas(root);
      }
      if ok {
        ok := ParsePolicy(root);
      }
      if ok {
        DocumentIsMeant(root, Antennas());
        IdsAreDifferent(root, Antennas());
        KeysAreKnown(root, ["radio", "interlock", "policy"]);
        KeysAreKnown(Item(root, "radio").value.members, RADIO_KEYS);
      }
    }
  }

  /** With no two rows of one name, the row that a lookup finds is the antenna's only row. */
  lemma OnlyRow(rows: seq<Member>, id: string)
    requires forall p, q :: 0 <= p < q < |rows| ==> !SameText(rows[p].name, rows[q].name)
    ensures AntennaRowOk(rows, id) <==> match ItemAnyCase(rows, id)
                                        case Some(Array(items)) => RowOk(items)
                                        case _ => false
  {
    match ItemAnyCase(rows, id)
    case None =>
    case Some(value) =>
      var r :| 0 <= r < |rows| && SameText(rows[r].name, id) && rows[r].value == value;
      assert value.Array? ==> IsRow(rows, r, id);
  }
}
