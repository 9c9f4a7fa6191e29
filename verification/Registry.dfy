// The key registry kept in non-volatile storage (main/nvs_controller.h) and the list of
// keys loaded from it at boot (main/serial_controller.h:1094-1117).
module Registry {
  import opened DecimalText

  // AMOUNT_OF_ENUMS_IN_KEYVALUE; the keys are 1 .. 133
  const KEY_LIMIT := 134
  const KEY_NOT_ALLOCATED := 0xff
  const ERROR_READING := 0xfe
  const NOT_FOUND_TEXT := "ESP_ERR_NVS_NOT_FOUND"
  const ERROR_TEXT := "ERROR_READING_NVS"

  // How the storage answers at the moment: as it should, with a read error, or not at all.
  datatype Health = Healthy | ReadFails | OpenFails

  // readx_nvs for a key's name
  function ReadText(entries: map<nat, string>, health: Health, key: nat): string {
    match health
    case OpenFails => "x"
    case ReadFails => ERROR_TEXT
    case Healthy => if key in entries then entries[key] else NOT_FOUND_TEXT
  }

  // pre_readx_nvs
  function ReadPort(entries: map<nat, string>, health: Health, key: nat): (port: nat)
    ensures port < 65536
  {
    var text := ReadText(entries, health, key);
    if text == NOT_FOUND_TEXT then KEY_NOT_ALLOCATED
    else if text == ERROR_TEXT then ERROR_READING
    else Atoi(text) % 65536
  }

  // What load_keys tests after storing the port to a uint8_t
  predicate HasPort(entries: map<nat, string>, health: Health, key: nat) {
    var port := ToUint8(ReadPort(entries, health, key));
    port != KEY_NOT_ALLOCATED && port != ERROR_READING
  }

  class Nvs {
    // Stored strings, by key number
    var entries: map<nat, string>
    var health: Health

    constructor ()
      ensures entries == map[] && health == Healthy
    {
      entries, health := map[], Healthy;
    }

    // pre_readx_nvs: a stored port comes back, a missing key and a read error have numbers of
    // their own, and a storage that cannot be opened gives port 0 for every key.
    method PreReadx(key: nat) returns (port: nat)
      requires 1 <= key < KEY_LIMIT
      ensures port == ReadPort(entries, health, key)
      ensures health == OpenFails ==> port == 0
      ensures health == ReadFails ==> port == ERROR_READING
      ensures health == Healthy && key !in entries ==> port == KEY_NOT_ALLOCATED
      ensures health == Healthy && key in entries ==>
                forall v: int | IsInt32(v) && entries[key] == DecText(v) :: port == v % 65536
    {
      hide DecText, Atoi;
      ReadPortMeans(entries, health, key);
      var text := ReadText(entries, health, key);
      if text == NOT_FOUND_TEXT {
        return KEY_NOT_ALLOCATED;
      } else if text == ERROR_TEXT {
        return ERROR_READING;
      }
      port := Atoi(text) % 65536;
    }

    // pre_writex_nvs; `accepted` is whether nvs_set_str succeeds, which nobody checks. An accepted
    // write reads back as the value, and no other key reads differently.
    method PreWritex(key: nat, value: nat, accepted: bool)
      requires 1 <= key < KEY_LIMIT && value < 65536
      modifies this`entries
      ensures accepted ==> ReadPort(entries, Healthy, key) == value
      ensures forall k, h | k != key :: ReadPort(entries, h, k) == ReadPort(old(entries), h, k)
      ensures entries == if accepted then old(entries)[key := DecText(value)] else old(entries)
    {
      hide DecText, Atoi;
      WriteThenRead(entries, key, value, key);
      if accepted {
        entries := entries[key := DecText(value)];
      }
    }

    // load_keys_with_port_assigned_to_RAM: the keys with a port, each once, in increasing order
    method LoadKeys() returns (keys: seq<nat>)
      ensures forall i, j | 0 <= i < j < |keys| :: keys[i] < keys[j]
      ensures forall k :: k in keys <==> 1 <= k < KEY_LIMIT && HasPort(entries, health, k)
    {
      hide ReadPort, ToUint8, DecText;
      keys := [];
      for i := 1 to KEY_LIMIT
        invariant forall a, b | 0 <= a < b < |keys| :: keys[a] < keys[b]
        invariant forall a | 0 <= a < |keys| :: keys[a] < i
        invariant forall k :: k in keys <==> 1 <= k < i && HasPort(entries, health, k)
      {
        var port := PreReadx(i);
        var aux := ToUint8(port);
        if aux != KEY_NOT_ALLOCATED && aux != ERROR_READING {
          keys := keys + [i];
        }
      }
    }
  }

  // What a key reads as, by what is stored for it
  lemma ReadPortMeans(entries: map<nat, string>, health: Health, key: nat)
    ensures health == OpenFails ==> ReadPort(entries, health, key) == 0
    ensures health == ReadFails ==> ReadPort(entries, health, key) == ERROR_READING
    ensures health == Healthy && key !in entries ==> ReadPort(entries, health, key) == KEY_NOT_ALLOCATED
    ensures health == Healthy && key in entries && entries[key] !in {NOT_FOUND_TEXT, ERROR_TEXT} ==>
              ReadPort(entries, health, key) == Atoi(entries[key]) % 65536
    ensures health == Healthy && key in entries ==>
              forall v: int | IsInt32(v) && entries[key] == DecText(v) :: ReadPort(entries, health, key) == v % 65536
  {
    hide DecText, Atoi;
    match health
    case OpenFails => LetterX();
    case ReadFails =>
    case Healthy =>
      if key in entries {
        forall v: int | IsInt32(v) && entries[key] == DecText(v)
          ensures ReadPort(entries, health, key) == v % 65536
        {
          DecTextIsNoSentinel(v);
          AtoiOfDecText(v, []);
        }
      }
  }

  lemma LetterX()
    ensures Atoi("x") == 0
  {
    assert SkipSpace("x") == "x";
  }

  // So a storage that cannot be opened makes every key one with a port: the first temperature's.
  lemma UnopenedLoadsAll(entries: map<nat, string>, key: nat)
    ensures HasPort(entries, OpenFails, key) && !HasPort(entries, ReadFails, key)
  {
    ReadPortMeans(entries, OpenFails, key);
    ReadPortMeans(entries, ReadFails, key);
  }

  lemma DecTextIsNoSentinel(value: int)
    ensures DecText(value) != NOT_FOUND_TEXT && DecText(value) != ERROR_TEXT
  {
    DecTextChars(value);
    assert DecText(value)[0] in DecText(value);
  }

  // Write-then-read round trip: every 16-bit port reads back, every other key is untouched, and
  // the key is loaded at the next boot exactly when the port's low byte is no sentinel.
  lemma WriteThenRead(entries: map<nat, string>, key: nat, value: nat, other: nat)
    requires value < 65536
    ensures ReadPort(entries[key := DecText(value)], Healthy, key) == value
    ensures HasPort(entries[key := DecText(value)], Healthy, key) <==> value % 256 != 255 && value % 256 != 254
    ensures other != key ==>
              ReadPort(entries[key := DecText(value)], Healthy, other) == ReadPort(entries, Healthy, other)
  {
    hide DecText, Atoi;
    DecTextIsNoSentinel(value);
    AtoiOfDecText(value, []);
  }

  // map_port on uint8_t
  function MapPort(port: nat, option: char): (r: nat)
    requires port < 256
    ensures r < 256
  {
    if option == 'm' then (port + 150) % 256 else (port - 150) % 256
  }

  // Mapping and unmapping are inverse on every port; the mapped position avoids the positions
  // of the keys, as the comment promises, exactly for the ports that do not wrap onto them.
  lemma MapPortRoundTrip(port: nat)
    requires port < 256
    ensures MapPort(MapPort(port, 'm'), 'd') == port && MapPort(MapPort(port, 'd'), 'm') == port
    ensures !(1 <= MapPort(port, 'm') < KEY_LIMIT) <==> port <= 106 || port >= 240
  {
    hide MapPort;
    MapPortIs(port);
    MapPortIs(MapPort(port, 'm'));
    MapPortIs(MapPort(port, 'd'));
  }

  lemma MapPortIs(port: nat)
    requires port < 256
    ensures MapPort(port, 'm') == if port < 106 then port + 150 else port - 106
    ensures MapPort(port, 'd') == if port < 150 then port + 106 else port - 150
  {
  }
}
