/** The saved form of the uncallable-role registry. The bot writes a JSON
    object whose keys are guild ids (JSON keys are strings, so `json.dump`
    writes the decimal text of each id) and whose values are lists of role
    ids; reading parses every key back with `int`. */
module Store {
  import opened Common
  import Decimal

  /** The in-memory registry over ids: guild to its ordered list of roles. */
  type Registry = map<GuildId, seq<RoleId>>

  /** The JSON object the registry file holds. */
  type Json = map<string, seq<nat>>

  /** The object `write_uncallable_roles_json` dumps. */
  function Encode(reg: Registry): (j: Json)
    ensures forall g :: g in reg ==> Decimal.NatToString(g) in j && j[Decimal.NatToString(g)] == reg[g]
    ensures forall k :: k in j ==> Decimal.ParseNat(k).Some? && Decimal.ParseNat(k).value in reg
  {
    Decimal.ReadsBackEveryId();
    var keys := set g | g in reg :: Decimal.NatToString(g);
    map k | k in keys :: reg[Decimal.ParseNat(k).value]
  }

  /** What `read_uncallable_roles_json` builds: each key read with `int`.
      A key that is not a decimal id makes the read fail (None). */
  function Decode(j: Json): (r: Option<Registry>)
    ensures r.Some? <==> forall k :: k in j ==> Decimal.ParseNat(k).Some?
    ensures r.Some? ==> forall k :: k in j ==> Decimal.ParseNat(k).value in r.value && r.value[Decimal.ParseNat(k).value] == j[k]
    ensures r.Some? ==> forall g :: g in r.value ==> Decimal.NatToString(g) in j
  {
    if forall k :: k in j ==> Decimal.ParseNat(k).Some? then
      Decimal.WritesBackEveryText();
      var ids := set k | k in j :: Decimal.ParseNat(k).value;
      Some(map g | g in ids :: j[Decimal.NatToString(g)])
    else None
  }

  /** Reading back what was written gives the registry that was written. */
  lemma DecodeEncode(reg: Registry)
    ensures Decode(Encode(reg)) == Some(reg)
  {
    Decimal.ReadsBackEveryId();
    var j := Encode(reg);
    var r := Decode(j);
    assert r.Some?;
    forall g | g in reg ensures g in r.value && r.value[g] == reg[g] {
      assert Decimal.ParseNat(Decimal.NatToString(g)) == Some(g);
    }
    assert r.value.Keys == reg.Keys;
    assert r.value == reg;
  }

  /** Writing what was read gives the file that was read (a file read without
      failure has only decimal ids as keys). */
  lemma EncodeDecode(j: Json)
    requires Decode(j).Some?
    ensures Encode(Decode(j).value) == j
  {
    Decimal.WritesBackEveryText();
    var e := Encode(Decode(j).value);
    assert e.Keys == j.Keys;
  }
}
