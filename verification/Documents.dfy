/**
 The writer's side of the configuration: documents for given settings, antennas and bands are
 accepted by the rules of `Config` and mean what was written.
 */
module Documents {
  import opened Text
  import opened Policy
  import opened Config

  /** A radio section that fixes the host and all settings. */
  function DirectSection(host: string, port: int, reconnect: int, reconnectMax: int, reconnectLog: int): seq<Member> {
    [Member("host", String(host)), Member("port", Number(port as real)),
     Member("reconnect_seconds", Number(reconnect as real)), Member("reconnect_max_seconds", Number(reconnectMax as real)),
     Member("reconnect_log_seconds", Number(reconnectLog as real))]
  }

  /** A radio section that selects a discovered radio by its serial number and address. */
  function DiscoverySection(serial: string, ip: string): seq<Member> {
    [Member("serial", String(serial)), Member("discovery_ip", String(ip))]
  }

  lemma DirectSectionIsOk(host: string, port: int, reconnect: int, reconnectMax: int, reconnectLog: int, ipv4: string -> bool)
    requires 1 <= |host| <= 255 && 1 <= port <= 65535
    requires 1 <= reconnect <= 300 && reconnect <= reconnectMax <= 3600 && 1 <= reconnectLog <= 86400
    ensures var radio := DirectSection(host, port, reconnect, reconnectMax, reconnectLog);
      KnownKeys(radio, RADIO_KEYS) && SelectorsOk(radio, ipv4) && TimingOk(radio)
  {
    hide Item, KnownKeys;
    var radio := DirectSection(host, port, reconnect, reconnectMax, reconnectLog);
    DirectKeysAreKnown(radio);
    DirectItems(radio);
  }

  lemma DirectKeysAreKnown(radio: seq<Member>)
    requires |radio| == 5 && radio[0].name == "host" && radio[1].name == "port" && radio[2].name == "reconnect_seconds"
    requires radio[3].name == "reconnect_max_seconds" && radio[4].name == "reconnect_log_seconds"
    ensures KnownKeys(radio, RADIO_KEYS)
  {
    var keys := RADIO_KEYS;
    assert keys[0] == "host" && keys[3] == "port" && keys[4] == "reconnect_seconds";
    assert keys[5] == "reconnect_max_seconds" && keys[6] == "reconnect_log_seconds";
    assert |radio[0].name| == 4 && |radio[1].name| == 4 && |radio[2].name| == 17 && |radio[3].name| == 21;
    assert radio[0].name[0] != radio[1].name[0];
    assert |radio[4].name| == 21 && radio[3].name[10] == 'm' && radio[4].name[10] == 'l';
  }

  /** In a section without repeated names, looking a member's name up gives its value. */
  lemma {:induction false} FirstIs(members: seq<Member>, i: nat)
    requires i < |members| && forall j :: 0 <= j < i ==> members[j].name != members[i].name
    ensures Item(members, members[i].name) == Some(members[i].value)
  {
    if i > 0 {
      assert members[0].name != members[i].name;
      FirstIs(members[1..], i - 1);
    }
  }

  lemma FoundUnder(members: seq<Member>, keys: seq<string>, i: nat, name: string)
    requires KnownKeys(members, keys) && i < |members| && members[i].name == name
    ensures Item(members, name) == Some(members[i].value)
  {
    hide Item;
    FirstIs(members, i);
  }

  lemma NotFound(members: seq<Member>, name: string)
    requires forall j :: 0 <= j < |members| ==> |members[j].name| != |name|
    ensures Item(members, name).None?
  {
    hide Item;
    var i := ItemIsFirst(members, name);
  }

  /** The settings of a section are found under their names, and nothing else is. */
  lemma DirectItems(radio: seq<Member>)
    requires |radio| == 5 && radio[0].name == "host" && radio[1].name == "port" && radio[2].name == "reconnect_seconds"
    requires radio[3].name == "reconnect_max_seconds" && radio[4].name == "reconnect_log_seconds"
    ensures Item(radio, "host") == Some(radio[0].value) && Item(radio, "port") == Some(radio[1].value)
    ensures Item(radio, "reconnect_seconds") == Some(radio[2].value)
    ensures Item(radio, "reconnect_max_seconds") == Some(radio[3].value)
    ensures Item(radio, "reconnect_log_seconds") == Some(radio[4].value)
    ensures Item(radio, "serial").None? && Item(radio, "discovery_ip").None?
  {
    hide Item, KnownKeys;
    DirectKeysAreKnown(radio);
    FoundUnder(radio, RADIO_KEYS, 0, "host");
    FoundUnder(radio, RADIO_KEYS, 1, "port");
    FoundUnder(radio, RADIO_KEYS, 2, "reconnect_seconds");
    FoundUnder(radio, RADIO_KEYS, 3, "reconnect_max_seconds");
    FoundUnder(radio, RADIO_KEYS, 4, "reconnect_log_seconds");
    assert |radio[0].name| == |radio[1].name| == 4 && |radio[2].name| == 17 && |radio[3].name| == |radio[4].name| == 21;
    NotFound(radio, "serial");
    NotFound(radio, "discovery_ip");
  }

  lemma DiscoverySectionIsOk(serial: string, ip: string, ipv4: string -> bool)
    requires 1 <= |serial| <= 63 && |ip| <= 15 && ipv4(ip)
    requires forall k :: 0 <= k < |serial| ==> IsAlnum(serial[k]) || serial[k] in "-_."
    ensures var radio := DiscoverySection(serial, ip);
      KnownKeys(radio, RADIO_KEYS) && SelectorsOk(radio, ipv4) && TimingOk(radio)
  {
    hide Item;
    var radio := DiscoverySection(serial, ip);
    FirstIs(radio, 0);
    FirstIs(radio, 1);
    assert |radio[0].name| == 6 && |radio[1].name| == 12;
    assert |"host"| == |"port"| == 4 && |"reconnect_seconds"| == 17;
    assert |"reconnect_max_seconds"| == |"reconnect_log_seconds"| == 21;
    NotFound(radio, "host");
    NotFound(radio, "port");
    NotFound(radio, "reconnect_seconds");
    NotFound(radio, "reconnect_max_seconds");
    NotFound(radio, "reconnect_log_seconds");
  }

  function Texts(texts: seq<string>): (items: seq<Json>)
    ensures |items| == |texts| && forall i :: 0 <= i < |items| ==> items[i] == String(texts[i])
  {
    seq(|texts|, i requires 0 <= i < |texts| => String(texts[i]))
  }

  /** Known bands, none twice. */
  predicate BandsOk(bands: seq<int>) {
    && (forall k :: 0 <= k < |bands| ==> 0 <= bands[k] < BAND_COUNT)
    && (forall j, k :: 0 <= j < k < |bands| ==> bands[j] != bands[k])
  }

  function BandNames(bands: seq<int>): (names: seq<string>)
    requires BandsOk(bands)
    ensures |names| == |bands| && forall k :: 0 <= k < |bands| ==> names[k] == BANDS[bands[k]].name
  {
    seq(|bands|, k requires 0 <= k < |bands| => BANDS[bands[k]].name)
  }

  /** One row per antenna. */
  function Rows(ids: seq<string>, bands: seq<seq<int>>): (rows: seq<Member>)
    requires |ids| == |bands| && forall i :: 0 <= i < |bands| ==> BandsOk(bands[i])
    ensures |rows| == |ids|
    ensures forall i :: 0 <= i < |ids| ==> rows[i] == Member(ids[i], Array(Texts(BandNames(bands[i]))))
  {
    seq(|ids|, i requires 0 <= i < |ids| => Member(ids[i], Array(Texts(BandNames(bands[i])))))
  }

  function Document(radio: seq<Member>, ids: seq<string>, bands: seq<seq<int>>): seq<Member>
    requires |ids| == |bands| && forall i :: 0 <= i < |bands| ==> BandsOk(bands[i])
  {
    [Member("radio", Object(radio)), Member("interlock", Object([Member("antennas", Array(Texts(ids)))])),
     Member("policy", Object(Rows(ids, bands)))]
  }

  lemma SectionsAreFound(radio: seq<Member>, ids: seq<string>, bands: seq<seq<int>>)
    requires |ids| == |bands| && forall i :: 0 <= i < |bands| ==> BandsOk(bands[i])
    ensures var root := Document(radio, ids, bands);
      && KnownKeys(root, ["radio", "interlock", "policy"])
      && Item(root, "radio") == Some(Object(radio)) && PolicyRows(root) == Some(Rows(ids, bands))
      && Item(root, "interlock") == Some(Object([Member("antennas", Array(Texts(ids)))]))
      && AntennaIds(root) == ids
  {
    hide Item;
    var root, list := Document(radio, ids, bands), [Member("antennas", Array(Texts(ids)))];
    assert root[0].name == "radio" && root[1].name == "interlock" && root[2].name == "policy" && list[0].name == "antennas";
    FirstIs(root, 0);
    FirstIs(root, 1);
    FirstIs(root, 2);
    FirstIs(list, 0);
  }

  /** One to eight antenna names of up to 31 letters, digits, `_` or `-`, all different. */
  predicate NamesOk(ids: seq<string>) {
    && 1 <= |ids| <= 8
    && (forall i :: 0 <= i < |ids| ==> 1 <= |ids[i]| <= 31)
    && (forall i, k :: 0 <= i < |ids| && 0 <= k < |ids[i]| ==> IsAlnum(ids[i][k]) || ids[i][k] in "_-")
    && (forall i, j :: 0 <= i < j < |ids| ==> !SameText(ids[i], ids[j]))
  }

  lemma NamesAreIds(ids: seq<string>)
    requires NamesOk(ids)
    ensures AntennaListOk(Texts(ids))
  {
    hide IsAlnum, SameText;
    forall i | 0 <= i < |ids| ensures ValidAntennaId(ids[i]) {
      forall k | 0 <= k < |ids[i]| ensures IsIdCharacter(ids[i][k]) {
        assert IsAlnum(ids[i][k]) || ids[i][k] in "_-";
      }
    }
  }

  lemma ListIsOk(radio: seq<Member>, ids: seq<string>, bands: seq<seq<int>>)
    requires |ids| == |bands| && forall i :: 0 <= i < |bands| ==> BandsOk(bands[i])
    requires AntennaListOk(Texts(ids))
    ensures InterlockOk(Document(radio, ids, bands))
  {
    hide Item, AntennaListOk;
    SectionsAreFound(radio, ids, bands);
    var list := [Member("antennas", Array(Texts(ids)))];
    assert list[0].name == "antennas";
    FirstIs(list, 0);
  }

  /** A row of band names names exactly these bands. */
  lemma RowNames(bands: seq<int>, k: int, b: int)
    requires BandsOk(bands)
    ensures Names(Texts(BandNames(bands)), k, b) <==> 0 <= k < |bands| && bands[k] == b
  {
    if 0 <= k < |bands| {
      BandNamesAreLowerCase(bands[k]);
      if 0 <= b < BAND_COUNT && IsBand(BANDS[bands[k]].name, b) {
        assert IsBand(BANDS[bands[k]].name, bands[k]);
        BandNameUnique(BANDS[bands[k]].name, b, bands[k]);
      }
    }
  }

  lemma RowIsOk(bands: seq<int>)
    requires BandsOk(bands)
    ensures RowOk(Texts(BandNames(bands)))
  {
    hide Names;
    var items := Texts(BandNames(bands));
    forall k | 0 <= k < |items| ensures NamesSome(items, k) {
      RowNames(bands, k, bands[k]);
    }
    forall j, k, b | Names(items, j, b) && Names(items, k, b) ensures j == k {
      RowNames(bands, j, b);
      RowNames(bands, k, b);
    }
  }

  lemma RowsAreOk(ids: seq<string>, bands: seq<seq<int>>)
    requires |ids| == |bands| && forall i :: 0 <= i < |bands| ==> BandsOk(bands[i])
    requires AntennaListOk(Texts(ids))
    ensures RowsOk(Rows(ids, bands), ids)
  {
    hide RowOk, BandsOk;
    var rows, items := Rows(ids, bands), Texts(ids);
    forall r | 0 <= r < |rows| ensures Listed(ids, rows[r].name) {
      assert SameText(ids[r], rows[r].name);
    }
    forall r, s | 0 <= r < s < |rows| ensures !SameText(rows[r].name, rows[s].name) {
      assert !SameText(items[r].text, items[s].text);
    }
    forall i | 0 <= i < |ids| ensures AntennaRowOk(rows, ids[i]) {
      RowIsOk(bands[i]);
      assert IsRow(rows, i, ids[i]);
    }
  }

  /** For every acceptable radio section, any one to eight antennas and any bands for each: the
      document that says so is accepted. */
  lemma WrittenDocumentIsAccepted(radio: seq<Member>, ids: seq<string>, bands: seq<seq<int>>, ipv4: string -> bool)
    requires KnownKeys(radio, RADIO_KEYS) && SelectorsOk(radio, ipv4) && TimingOk(radio)
    requires |ids| == |bands| && forall i :: 0 <= i < |bands| ==> BandsOk(bands[i])
    requires NamesOk(ids)
    ensures DocumentOk(Object(Document(radio, ids, bands)), ipv4)
  {
    hide KnownKeys, SelectorsOk, TimingOk, InterlockOk, RowsOk, Item, AntennaListOk, BandsOk, NamesOk;
    NamesAreIds(ids);
    SectionsAreFound(radio, ids, bands);
    ListIsOk(radio, ids, bands);
    RowsAreOk(ids, bands);
  }

  /** It allows an antenna, spelled in any letter case, exactly the bands written for it. */
  lemma WrittenDocumentAllows(radio: seq<Member>, ids: seq<string>, bands: seq<seq<int>>, i: nat, antenna: string, f: Double)
    requires |ids| == |bands| && forall j :: 0 <= j < |bands| ==> BandsOk(bands[j])
    requires NamesOk(ids) && i < |ids| && SameText(ids[i], antenna)
    ensures DocumentAllows(Document(radio, ids, bands), f, antenna) <==> exists k :: 0 <= k < |bands[i]| && InBand(f, bands[i][k])
  {
    hide Item, InBand, Names;
    SectionsAreFound(radio, ids, bands);
    var rows := Rows(ids, bands);
    if RowsAllow(rows, f, antenna) {
      var r, k, b :| IsRow(rows, r, antenna) && Names(rows[r].value.items, k, b) && InBand(f, b);
      assert r == i by {
        assert SameText(ids[r], ids[i]);
      }
      RowNames(bands[i], k, b);
    }
    if k :| 0 <= k < |bands[i]| && InBand(f, bands[i][k]) {
      RowNames(bands[i], k, bands[i][k]);
      assert IsRow(rows, i, antenna);
    }
  }
}
