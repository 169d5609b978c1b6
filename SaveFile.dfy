/** The typed save structure (src/save.rs): an inventory whose items are
    told apart by their `Type` field, stored in the save file as a table
    keyed by slot numbers written as strings. */
module SaveFile {
  import opened Results
  import opened Toml
  import opened Scalars

  datatype MaterialInventory = MaterialInventory(quantity: U32, id: U32, looked: bool)

  datatype ArtifactInventory = ArtifactInventory(
    netherPtr: Option<U32>,
    awakened: string,
    spell: string,
    artifactTrait: string,
    statSlot1: Option<U32>,
    statSlot2: Option<U32>,
    statSlot3: Option<U32>,
    statSlot4: Option<U32>,
    trickSlot1: Option<U32>,
    trickSlot2: Option<U32>,
    tier: U32,
    guid: U32,
    locked: bool,
    nickname: string,
    artifactType: U32,
    looked: bool)

  /** One inventory slot. The four variants whose records have no fields
      carry nothing; `Missing` fills the slots the save file skips. */
  datatype Inventory =
    | Material(material: MaterialInventory)
    | Artifact(artifact: ArtifactInventory)
    | Spellgem
    | Netherstone
    | Dust
    | Consumable
    | Missing

  datatype Save = Save(inventory: seq<Inventory>)

  /** The `Type` value that selects each variant. */
  function Tag(item: Inventory): string {
    match item
    case Material(_) => "obj_material"
    case Artifact(_) => "obj_artifact"
    case Spellgem => "obj_spellgem"
    case Netherstone => "obj_netherstone"
    case Dust => "obj_dust"
    case Consumable => "obj_consumable"
    case Missing => "Missing"
  }

  predicate IsTag(t: string) {
    t in {"obj_material", "obj_artifact", "obj_spellgem", "obj_netherstone", "obj_dust", "obj_consumable", "Missing"}
  }

  // ---------------------------------------------------------------------
  // Records

  /** A material record: each field read by the helper declared for it; the
      record fails as soon as one field is absent or fails. */
  function DecodeMaterial(entries: seq<(string, Node)>): (r: Result<MaterialInventory, DecodeError>)
    ensures r.Ok? <==>
      FieldU32(entries, "MaterialQuantity").Ok? &&
      FieldU32(entries, "MaterialID").Ok? &&
      FieldBool(entries, "Looked").Ok?
    ensures r.Ok? ==> r.value == MaterialInventory(
      FieldU32(entries, "MaterialQuantity").value,
      FieldU32(entries, "MaterialID").value,
      FieldBool(entries, "Looked").value)
  {
    var quantity :- FieldU32(entries, "MaterialQuantity");
    var id :- FieldU32(entries, "MaterialID");
    var looked :- FieldBool(entries, "Looked");
    Ok(MaterialInventory(quantity, id, looked))
  }

  /** An artifact record: each of its sixteen fields read by the helper
      declared for it; the record fails as soon as one field fails. */
  function DecodeArtifact(entries: seq<(string, Node)>): (r: Result<ArtifactInventory, DecodeError>)
    ensures r.Ok? <==>
      FieldOptionU32(entries, "NetherPtr").Ok? &&
      FieldString(entries, "ArtifactAwakened").Ok? &&
      FieldString(entries, "ArtifactSpell").Ok? &&
      FieldString(entries, "ArtifactTrait").Ok? &&
      FieldOptionU32(entries, "ArtifactStatSlot1").Ok? &&
      FieldOptionU32(entries, "ArtifactStatSlot2").Ok? &&
      FieldOptionU32(entries, "ArtifactStatSlot3").Ok? &&
      FieldOptionU32(entries, "ArtifactStatSlot4").Ok? &&
      FieldOptionU32(entries, "ArtifactTrickSlot1").Ok? &&
      FieldOptionU32(entries, "ArtifactTrickSlot2").Ok? &&
      FieldU32(entries, "ArtifactTier").Ok? &&
      FieldU32(entries, "ArtifactGUID").Ok? &&
      FieldBool(entries, "ArtifactLocked").Ok? &&
      FieldString(entries, "ArtifactNickname").Ok? &&
      FieldU32(entries, "ArtifactType").Ok? &&
      FieldBool(entries, "Looked").Ok?
    ensures r.Ok? ==> r.value == ArtifactInventory(
      FieldOptionU32(entries, "NetherPtr").value,
      FieldString(entries, "ArtifactAwakened").value,
      FieldString(entries, "ArtifactSpell").value,
      FieldString(entries, "ArtifactTrait").value,
      FieldOptionU32(entries, "ArtifactStatSlot1").value,
      FieldOptionU32(entries, "ArtifactStatSlot2").value,
      FieldOptionU32(entries, "ArtifactStatSlot3").value,
      FieldOptionU32(entries, "ArtifactStatSlot4").value,
      FieldOptionU32(entries, "ArtifactTrickSlot1").value,
      FieldOptionU32(entries, "ArtifactTrickSlot2").value,
      FieldU32(entries, "ArtifactTier").value,
      FieldU32(entries, "ArtifactGUID").value,
      FieldBool(entries, "ArtifactLocked").value,
      FieldString(entries, "ArtifactNickname").value,
      FieldU32(entries, "ArtifactType").value,
      FieldBool(entries, "Looked").value)
  {
    var netherPtr :- FieldOptionU32(entries, "NetherPtr");
    var awakened :- FieldString(entries, "ArtifactAwakened");
    var spell :- FieldString(entries, "ArtifactSpell");
    var artifactTrait :- FieldString(entries, "ArtifactTrait");
    var statSlot1 :- FieldOptionU32(entries, "ArtifactStatSlot1");
    var statSlot2 :- FieldOptionU32(entries, "ArtifactStatSlot2");
    var statSlot3 :- FieldOptionU32(entries, "ArtifactStatSlot3");
    var statSlot4 :- FieldOptionU32(entries, "ArtifactStatSlot4");
    var trickSlot1 :- FieldOptionU32(entries, "ArtifactTrickSlot1");
    var trickSlot2 :- FieldOptionU32(entries, "ArtifactTrickSlot2");
    var tier :- FieldU32(entries, "ArtifactTier");
    var guid :- FieldU32(entries, "ArtifactGUID");
    var locked :- FieldBool(entries, "ArtifactLocked");
    var nickname :- FieldString(entries, "ArtifactNickname");
    var artifactType :- FieldU32(entries, "ArtifactType");
    var looked :- FieldBool(entries, "Looked");
    Ok(ArtifactInventory(netherPtr, awakened, spell, artifactTrait, statSlot1, statSlot2, statSlot3,
      statSlot4, trickSlot1, trickSlot2, tier, guid, locked, nickname, artifactType, looked))
  }

  /** The `Type` entry of an item, if the item is a table that has one. */
  function TypeOf(node: Node): Option<Node> {
    if node.Table? then Lookup(node.entries, "Type") else None
  }

  /** An inventory item: a table whose `Type` string picks the variant, the
      rest of the table then read as that variant's record. A `Type` naming
      no variant is rejected; the record-less variants accept any table. */
  function DecodeInventory(node: Node): (r: Result<Inventory, DecodeError>)
    ensures r.Ok? ==> TypeOf(node) == Some(Text(Tag(r.value)))
    ensures !node.Table? ==> r == Err(InvalidType)
    ensures node.Table? && TypeOf(node).None? ==> r == Err(MissingField("Type"))
    ensures TypeOf(node).Some? && !TypeOf(node).value.Text? ==> r == Err(InvalidType)
    ensures TypeOf(node).Some? && TypeOf(node).value.Text? && !IsTag(TypeOf(node).value.s) ==>
      r == Err(UnknownVariant(TypeOf(node).value.s))
    ensures (TypeOf(node).Some? && TypeOf(node).value.Text? && IsTag(TypeOf(node).value.s) &&
             TypeOf(node).value.s != "obj_material" && TypeOf(node).value.s != "obj_artifact") ==> r.Ok?
  {
    match node
    case Table(entries) => (
      match Lookup(entries, "Type")
      case None => Err(MissingField("Type"))
      case Some(Text(tag)) =>
        if tag == "obj_material" then
          var m :- DecodeMaterial(entries);
          Ok(Material(m))
        else if tag == "obj_artifact" then
          var a :- DecodeArtifact(entries);
          Ok(Artifact(a))
        else if tag == "obj_spellgem" then Ok(Spellgem)
        else if tag == "obj_netherstone" then Ok(Netherstone)
        else if tag == "obj_dust" then Ok(Dust)
        else if tag == "obj_consumable" then Ok(Consumable)
        else if tag == "Missing" then Ok(Missing)
        else Err(UnknownVariant(tag))
      case Some(_) => Err(InvalidType))
    case _ => Err(InvalidType)
  }

  /** The two variants with records read the rest of the table as that
      record: the item holds the decoded record, or fails with its error. */
  lemma DecodeInventoryRecord(node: Node)
    requires node.Table?
    ensures TypeOf(node) == Some(Text("obj_material")) ==>
      (DecodeInventory(node).Ok? <==> DecodeMaterial(node.entries).Ok?) &&
      (DecodeInventory(node).Ok? ==> DecodeInventory(node).value == Material(DecodeMaterial(node.entries).value)) &&
      (DecodeInventory(node).Err? ==> DecodeInventory(node).error == DecodeMaterial(node.entries).error)
    ensures TypeOf(node) == Some(Text("obj_artifact")) ==>
      (DecodeInventory(node).Ok? <==> DecodeArtifact(node.entries).Ok?) &&
      (DecodeInventory(node).Ok? ==> DecodeInventory(node).value == Artifact(DecodeArtifact(node.entries).value)) &&
      (DecodeInventory(node).Err? ==> DecodeInventory(node).error == DecodeArtifact(node.entries).error)
  {
  }

  // ---------------------------------------------------------------------
  // How an item is written in the save file

  function MaterialEntries(m: MaterialInventory): seq<(string, Node)> {
    [("MaterialQuantity", EncodeU32(m.quantity)),
     ("MaterialID", EncodeU32(m.id)),
     ("Looked", EncodeBool(m.looked))]
  }

  /** The fields of an artifact record, in the order the record declares them. */
  const ArtifactFields: seq<string> := [
     "NetherPtr",
     "ArtifactAwakened",
     "ArtifactSpell",
     "ArtifactTrait",
     "ArtifactStatSlot1",
     "ArtifactStatSlot2",
     "ArtifactStatSlot3",
     "ArtifactStatSlot4",
     "ArtifactTrickSlot1",
     "ArtifactTrickSlot2",
     "ArtifactTier",
     "ArtifactGUID",
     "ArtifactLocked",
     "ArtifactNickname",
     "ArtifactType",
     "Looked"]

  function ArtifactValues(a: ArtifactInventory): seq<Node> {
    [
     EncodeOptionU32(a.netherPtr),
     Text(a.awakened),
     Text(a.spell),
     Text(a.artifactTrait),
     EncodeOptionU32(a.statSlot1),
     EncodeOptionU32(a.statSlot2),
     EncodeOptionU32(a.statSlot3),
     EncodeOptionU32(a.statSlot4),
     EncodeOptionU32(a.trickSlot1),
     EncodeOptionU32(a.trickSlot2),
     EncodeU32(a.tier),
     EncodeU32(a.guid),
     EncodeBool(a.locked),
     Text(a.nickname),
     EncodeU32(a.artifactType),
     EncodeBool(a.looked)]
  }

  function ArtifactEntries(a: ArtifactInventory): seq<(string, Node)> {
    var values := ArtifactValues(a);
    seq(|ArtifactFields|, i requires 0 <= i < |ArtifactFields| => (ArtifactFields[i], values[i]))
  }

  function EncodeInventory(item: Inventory): Node {
    var fields := match item
      case Material(m) => MaterialEntries(m)
      case Artifact(a) => ArtifactEntries(a)
      case _ => [];
    Table([("Type", Text(Tag(item)))] + fields)
  }

  /** The entry at `i` is what a lookup of its key finds when no earlier entry has that key. */
  lemma {:induction false} LookupAt(entries: seq<(string, Node)>, i: nat)
    requires i < |entries|
    requires forall j :: 0 <= j < i ==> entries[j].0 != entries[i].0
    ensures Lookup(entries, entries[i].0) == Some(entries[i].1)
  {
    if i > 0 {
      LookupAt(entries[1..], i - 1);
    }
  }

  lemma MaterialRoundTrip(m: MaterialInventory, tag: Node)
    ensures DecodeMaterial([("Type", tag)] + MaterialEntries(m)) == Ok(m)
  {
    var e := [("Type", tag)] + MaterialEntries(m);
    LookupAt(e, 1);
    LookupAt(e, 2);
    LookupAt(e, 3);
    U32RoundTrip(m.quantity);
    U32RoundTrip(m.id);
    BoolRoundTrip(m.looked);
  }

  lemma ArtifactFieldsDistinct()
    ensures forall i, j :: 0 <= i < j < |ArtifactFields| ==> ArtifactFields[i] != ArtifactFields[j]
    ensures forall i :: 0 <= i < |ArtifactFields| ==> ArtifactFields[i] != "Type"
  {
  }

  /** Each artifact field written is the one a lookup of its name finds. */
  lemma ArtifactFieldAt(a: ArtifactInventory, tag: Node, i: nat)
    requires i < |ArtifactFields|
    ensures Lookup([("Type", tag)] + ArtifactEntries(a), ArtifactFields[i]) == Some(ArtifactValues(a)[i])
  {
    ArtifactFieldsDistinct();
    LookupAt([("Type", tag)] + ArtifactEntries(a), i + 1);
  }

  lemma ArtifactNamesRoundTrip(a: ArtifactInventory, tag: Node)
    ensures FieldOptionU32([("Type", tag)] + ArtifactEntries(a), "NetherPtr") == Ok(a.netherPtr)
    ensures FieldString([("Type", tag)] + ArtifactEntries(a), "ArtifactAwakened") == Ok(a.awakened)
    ensures FieldString([("Type", tag)] + ArtifactEntries(a), "ArtifactSpell") == Ok(a.spell)
    ensures FieldString([("Type", tag)] + ArtifactEntries(a), "ArtifactTrait") == Ok(a.artifactTrait)
  {
    ArtifactFieldAt(a, tag, 0);
    OptionU32RoundTrip(a.netherPtr);
    ArtifactFieldAt(a, tag, 1);
    ArtifactFieldAt(a, tag, 2);
    ArtifactFieldAt(a, tag, 3);
  }

  lemma ArtifactStatSlotsRoundTrip(a: ArtifactInventory, tag: Node)
    ensures FieldOptionU32([("Type", tag)] + ArtifactEntries(a), "ArtifactStatSlot1") == Ok(a.statSlot1)
    ensures FieldOptionU32([("Type", tag)] + ArtifactEntries(a), "ArtifactStatSlot2") == Ok(a.statSlot2)
    ensures FieldOptionU32([("Type", tag)] + ArtifactEntries(a), "ArtifactStatSlot3") == Ok(a.statSlot3)
    ensures FieldOptionU32([("Type", tag)] + ArtifactEntries(a), "ArtifactStatSlot4") == Ok(a.statSlot4)
  {
    ArtifactFieldAt(a, tag, 4);
    OptionU32RoundTrip(a.statSlot1);
    ArtifactFieldAt(a, tag, 5);
    OptionU32RoundTrip(a.statSlot2);
    ArtifactFieldAt(a, tag, 6);
    OptionU32RoundTrip(a.statSlot3);
    ArtifactFieldAt(a, tag, 7);
    OptionU32RoundTrip(a.statSlot4);
  }

  lemma ArtifactTrickSlotsRoundTrip(a: ArtifactInventory, tag: Node)
    ensures FieldOptionU32([("Type", tag)] + ArtifactEntries(a), "ArtifactTrickSlot1") == Ok(a.trickSlot1)
    ensures FieldOptionU32([("Type", tag)] + ArtifactEntries(a), "ArtifactTrickSlot2") == Ok(a.trickSlot2)
    ensures FieldU32([("Type", tag)] + ArtifactEntries(a), "ArtifactTier") == Ok(a.tier)
    ensures FieldU32([("Type", tag)] + ArtifactEntries(a), "ArtifactGUID") == Ok(a.guid)
  {
    ArtifactFieldAt(a, tag, 8);
    OptionU32RoundTrip(a.trickSlot1);
    ArtifactFieldAt(a, tag, 9);
    OptionU32RoundTrip(a.trickSlot2);
    ArtifactFieldAt(a, tag, 10);
    U32RoundTrip(a.tier);
    ArtifactFieldAt(a, tag, 11);
    U32RoundTrip(a.guid);
  }

  lemma ArtifactFlagsRoundTrip(a: ArtifactInventory, tag: Node)
    ensures FieldBool([("Type", tag)] + ArtifactEntries(a), "ArtifactLocked") == Ok(a.locked)
    ensures FieldString([("Type", tag)] + ArtifactEntries(a), "ArtifactNickname") == Ok(a.nickname)
    ensures FieldU32([("Type", tag)] + ArtifactEntries(a), "ArtifactType") == Ok(a.artifactType)
    ensures FieldBool([("Type", tag)] + ArtifactEntries(a), "Looked") == Ok(a.looked)
  {
    ArtifactFieldAt(a, tag, 12);
    BoolRoundTrip(a.locked);
    ArtifactFieldAt(a, tag, 13);
    ArtifactFieldAt(a, tag, 14);
    U32RoundTrip(a.artifactType);
    ArtifactFieldAt(a, tag, 15);
    BoolRoundTrip(a.looked);
  }

  lemma ArtifactRoundTrip(a: ArtifactInventory, tag: Node)
    ensures DecodeArtifact([("Type", tag)] + ArtifactEntries(a)) == Ok(a)
  {
    ArtifactNamesRoundTrip(a, tag);
    ArtifactStatSlotsRoundTrip(a, tag);
    ArtifactTrickSlotsRoundTrip(a, tag);
    ArtifactFlagsRoundTrip(a, tag);
  }

  /** Every item written in the save file's form reads back as itself. */
  lemma InventoryRoundTrip(item: Inventory)
    ensures DecodeInventory(EncodeInventory(item)) == Ok(item)
  {
    var tag := Text(Tag(item));
    match item
    case Material(m) =>
      MaterialRoundTrip(m, tag);
    case Artifact(a) =>
      ArtifactRoundTrip(a, tag);
    case _ =>
      assert [("Type", tag)] + [] == [("Type", tag)];
  }

  // ---------------------------------------------------------------------
  // The sparse inventory vector (src/save.rs:25-35)

  /** A slot key, parsed as a `usize`. The source unwraps the parse, so a key
      that is not a slot number aborts the run. */
  function ParseKey(key: string): (r: Result<nat, DecodeError>)
    ensures r.Err? ==> r == Err(Panic)
    ensures r.Ok? <==> ParseUnsigned(key, UsizeMax).Some?
    ensures r.Ok? ==> r.value == ParseUnsigned(key, UsizeMax).value && r.value <= UsizeMax
  {
    match ParseUnsigned(key, UsizeMax)
    case Some(k) => Ok(k)
    case None => Err(Panic)
  }

  /** A slot written in decimal names that slot; a signed key aborts. */
  lemma ParseKeyDecimal(n: nat, t: string)
    ensures n <= UsizeMax ==> ParseKey(Decimal(n)) == Ok(n)
    ensures n > UsizeMax ==> ParseKey(Decimal(n)) == Err(Panic)
    ensures ParseKey(['-'] + t) == Err(Panic)
  {
    ParseUnsignedDecimal(n, UsizeMax);
    ParseUnsignedRejectsSigns(t, UsizeMax);
  }

  function Padding(n: nat): seq<Inventory> {
    seq(n, _ => Missing)
  }

  /** The evidently intended write of `value` into slot `key`: the vector
      first grows with `Missing` items until the slot exists. */
  function Put(vec: seq<Inventory>, key: nat, value: Inventory): (r: seq<Inventory>)
    ensures |r| == if key < |vec| then |vec| else key + 1
    ensures r[key] == value
    ensures forall i :: 0 <= i < |vec| && i != key ==> r[i] == vec[i]
    ensures forall i :: |vec| <= i < |r| && i != key ==> r[i] == Missing
  {
    var grown := if |vec| <= key then vec + Padding(key + 1 - |vec|) else vec;
    grown[key := value]
  }

  /** The write as the source does it: the vector grows only when its length
      is below `key`, so a key equal to the length indexes past the end. */
  function Place(vec: seq<Inventory>, key: nat, value: Inventory): (r: Result<seq<Inventory>, DecodeError>)
    ensures r.Err? <==> key == |vec|
    ensures r.Err? ==> r.error == Panic
    ensures r.Ok? ==> r.value == Put(vec, key, value)
  {
    var grown := if |vec| < key then vec + Padding(key + 1 - |vec|) else vec;
    if key < |grown| then Ok(grown[key := value]) else Err(Panic)
  }

  /** The source's loop from the vector `vec` on: for each entry the value is
      decoded, then the key parsed, then the value written with `Place`. */
  function BuildFrom(vec: seq<Inventory>, entries: seq<(string, Node)>): Result<seq<Inventory>, DecodeError>
    decreases |entries|
  {
    if entries == [] then Ok(vec)
    else
      var vec' :- PlaceEntry(vec, entries[0]);
      BuildFrom(vec', entries[1..])
  }

  /** One round of the source's loop: the value is decoded, then the key
      parsed, then the value written with `Place`. */
  function PlaceEntry(vec: seq<Inventory>, entry: (string, Node)): Result<seq<Inventory>, DecodeError> {
    PlaceDecoded(vec, entry.0, DecodeInventory(entry.1))
  }

  function PlaceDecoded(vec: seq<Inventory>, keyText: string, decoded: Result<Inventory, DecodeError>): Result<seq<Inventory>, DecodeError> {
    var value :- decoded;
    var key :- ParseKey(keyText);
    Place(vec, key, value)
  }

  /** The same loop with the intended write `Put`. */
  function FillFrom(vec: seq<Inventory>, entries: seq<(string, Node)>): Result<seq<Inventory>, DecodeError>
    decreases |entries|
  {
    if entries == [] then Ok(vec)
    else
      var value :- DecodeInventory(entries[0].1);
      var key :- ParseKey(entries[0].0);
      FillFrom(Put(vec, key, value), entries[1..])
  }

  /** `deserialize_inventory` as written: only a table is accepted. */
  function DecodeInventoryMap(node: Node): Result<seq<Inventory>, DecodeError> {
    if node.Table? then BuildFrom([], node.entries) else Err(InvalidType)
  }

  /** `deserialize_inventory` with the intended growth. */
  function FillInventoryMap(node: Node): Result<seq<Inventory>, DecodeError> {
    if node.Table? then FillFrom([], node.entries) else Err(InvalidType)
  }

  /** The source's loop: `vec` is the vector it resizes and assigns into. */
  method DeserializeInventory(node: Node) returns (r: Result<seq<Inventory>, DecodeError>)
    ensures r == DecodeInventoryMap(node)
  {
    if !node.Table? {
      return Err(InvalidType);
    }
    var entries := node.entries;
    var vec: seq<Inventory> := [];
    var i := 0;
    assert entries[0..] == entries;
    while i < |entries|
      invariant 0 <= i <= |entries|
      invariant BuildFrom([], entries) == BuildFrom(vec, entries[i..])
    {
      assert entries[i..][1..] == entries[i + 1..];
      var value := DecodeInventory(entries[i].1);
      var next := Insert(vec, entries[i].0, value);
      if next.Err? {
        return Err(next.error);
      }
      vec := next.value;
      i := i + 1;
    }
    return Ok(vec);
  }

  /** The body of the source's loop for one entry, once its value is decoded. */
  method Insert(vec: seq<Inventory>, keyText: string, value: Result<Inventory, DecodeError>)
    returns (r: Result<seq<Inventory>, DecodeError>)
    ensures r == PlaceDecoded(vec, keyText, value)
  {
    if value.Err? {
      return Err(value.error);
    }
    var key := ParseKey(keyText);
    if key.Err? {
      return Err(Panic);
    }
    var grown := vec;
    if |grown| < key.value {
      grown := grown + Padding(key.value + 1 - |grown|);
    }
    if key.value >= |grown| {
      return Err(Panic);
    }
    r := Ok(grown[key.value := value.value]);
  }

  // ---------------------------------------------------------------------
  // What the vector holds

  /** The (slot, item) writes the entries ask for, in order. */
  function Writes(entries: seq<(string, Node)>): Result<seq<(nat, Inventory)>, DecodeError>
    decreases |entries|
  {
    if entries == [] then Ok([])
    else
      var value :- DecodeInventory(entries[0].1);
      var key :- ParseKey(entries[0].0);
      var rest :- Writes(entries[1..]);
      Ok([(key, value)] + rest)
  }

  function Apply(vec: seq<Inventory>, ws: seq<(nat, Inventory)>): seq<Inventory>
    decreases |ws|
  {
    if ws == [] then vec else Apply(Put(vec, ws[0].0, ws[0].1), ws[1..])
  }

  /** The item last written into slot `i`, if any. */
  function LastWrite(ws: seq<(nat, Inventory)>, i: nat): Option<Inventory>
    decreases |ws|
  {
    if ws == [] then None
    else
      match LastWrite(ws[1..], i)
      case Some(v) => Some(v)
      case None => if ws[0].0 == i then Some(ws[0].1) else None
  }

  /** One more than the largest slot written, 0 when nothing is written. */
  function Extent(ws: seq<(nat, Inventory)>): nat
    decreases |ws|
  {
    if ws == [] then 0
    else
      var rest := Extent(ws[1..]);
      if ws[0].0 + 1 < rest then rest else ws[0].0 + 1
  }

  lemma {:induction false} ExtentMeaning(ws: seq<(nat, Inventory)>)
    ensures forall j :: 0 <= j < |ws| ==> ws[j].0 < Extent(ws)
    ensures ws != [] ==> exists j :: 0 <= j < |ws| && ws[j].0 + 1 == Extent(ws)
    ensures ws == [] <==> Extent(ws) == 0
    decreases |ws|
  {
    if ws != [] {
      ExtentMeaning(ws[1..]);
      forall j | 0 < j < |ws|
        ensures ws[j].0 < Extent(ws)
      {
        assert ws[j] == ws[1..][j - 1];
      }
      if ws[1..] != [] && ws[0].0 + 1 < Extent(ws[1..]) {
        var j :| 0 <= j < |ws[1..]| && ws[1..][j].0 + 1 == Extent(ws[1..]);
        assert ws[j + 1].0 + 1 == Extent(ws);
      }
    }
  }

  /** The intended loop writes exactly what the entries ask for, and fails
      exactly where decoding them fails. */
  lemma {:induction false} FillFromWrites(vec: seq<Inventory>, entries: seq<(string, Node)>)
    ensures FillFrom(vec, entries) ==
      match Writes(entries)
      case Err(e) => Err(e)
      case Ok(ws) => Ok(Apply(vec, ws))
    decreases |entries|
  {
    if entries != [] {
      var value := DecodeInventory(entries[0].1);
      var key := ParseKey(entries[0].0);
      if value.Ok? && key.Ok? {
        var vec' := Put(vec, key.value, value.value);
        FillFromWrites(vec', entries[1..]);
        var rest := Writes(entries[1..]);
        if rest.Ok? {
          var ws := [(key.value, value.value)] + rest.value;
          assert ws[1..] == rest.value;
        }
      }
    }
  }

  /** Whenever the source's loop succeeds, it agrees with the intended one. */
  lemma {:induction false} BuildAgreesWithFill(vec: seq<Inventory>, entries: seq<(string, Node)>)
    requires BuildFrom(vec, entries).Ok?
    ensures BuildFrom(vec, entries) == FillFrom(vec, entries)
    decreases |entries|
  {
    if entries != [] {
      var value := DecodeInventory(entries[0].1).value;
      var key := ParseKey(entries[0].0).value;
      BuildAgreesWithFill(Place(vec, key, value).value, entries[1..]);
    }
  }

  /** Writing never shrinks the vector: its length is the larger of the old
      length and one past the largest slot written. */
  lemma {:induction false} ApplyLength(vec: seq<Inventory>, ws: seq<(nat, Inventory)>)
    ensures |Apply(vec, ws)| == if |vec| < Extent(ws) then Extent(ws) else |vec|
    decreases |ws|
  {
    if ws != [] {
      ApplyLength(Put(vec, ws[0].0, ws[0].1), ws[1..]);
    }
  }

  /** Each slot holds the item last written into it; a slot never written
      keeps its old item, or holds `Missing` if the vector grew past it. */
  lemma {:induction false} ApplyAt(vec: seq<Inventory>, ws: seq<(nat, Inventory)>, i: nat)
    requires i < |Apply(vec, ws)|
    ensures Apply(vec, ws)[i] ==
      match LastWrite(ws, i)
      case Some(v) => v
      case None => if i < |vec| then vec[i] else Missing
    decreases |ws|
  {
    if ws != [] {
      var vec' := Put(vec, ws[0].0, ws[0].1);
      ApplyAt(vec', ws[1..], i);
    }
  }

  /** A decoded inventory is as long as one past its largest slot key (empty
      for an empty table), holds in each slot the item last written there,
      and `Missing` in every slot no entry names. */
  lemma InventoryContents(entries: seq<(string, Node)>)
    requires DecodeInventoryMap(Table(entries)).Ok?
    ensures Writes(entries).Ok?
    ensures |DecodeInventoryMap(Table(entries)).value| == Extent(Writes(entries).value)
    ensures entries == [] <==> DecodeInventoryMap(Table(entries)).value == []
    ensures forall i :: 0 <= i < |DecodeInventoryMap(Table(entries)).value| ==>
      DecodeInventoryMap(Table(entries)).value[i] ==
        match LastWrite(Writes(entries).value, i)
        case Some(v) => v
        case None => Missing
  {
    BuildAgreesWithFill([], entries);
    FillFromWrites([], entries);
    var ws := Writes(entries).value;
    ApplyLength([], ws);
    ExtentMeaning(ws);
    forall i | 0 <= i < |Apply([], ws)|
      ensures Apply([], ws)[i] == match LastWrite(ws, i) case Some(v) => v case None => Missing
    {
      ApplyAt([], ws, i);
    }
    WritesLength(entries);
  }

  lemma {:induction false} WritesLength(entries: seq<(string, Node)>)
    requires Writes(entries).Ok?
    ensures |Writes(entries).value| == |entries|
    decreases |entries|
  {
    if entries != [] {
      WritesLength(entries[1..]);
    }
  }

  // ---------------------------------------------------------------------
  // The growth off-by-one (src/save.rs:29)

  /** As written, an inventory whose first entry is a good item under slot
      "0" aborts: the empty vector is not grown for key 0 == length 0. */
  lemma FirstKeyZeroPanics(entries: seq<(string, Node)>)
    requires entries != [] && entries[0].0 == "0" && DecodeInventory(entries[0].1).Ok?
    ensures DecodeInventoryMap(Table(entries)) == Err(Panic)
  {
    ParseUnsignedDecimal(0, UsizeMax);
    assert Decimal(0) == "0";
  }

  /** As written, the abort depends on the order of the entries: listing
      slot "1" before slot "0" grows the vector first, and both writes land. */
  lemma KeyOrderMatters()
    ensures DecodeInventoryMap(Table([("1", EncodeInventory(Dust)), ("0", EncodeInventory(Dust))])) == Ok([Dust, Dust])
    ensures DecodeInventoryMap(Table([("0", EncodeInventory(Dust)), ("1", EncodeInventory(Dust))])) == Err(Panic)
  {
    var dust := EncodeInventory(Dust);
    InventoryRoundTrip(Dust);
    ParseKeyDecimal(0, []);
    ParseKeyDecimal(1, []);
    assert Decimal(0) == "0" && Decimal(1) == "1";
    var one := Place([], 1, Dust).value;
    assert one == [Missing, Dust];
    assert one[0 := Dust] == [Dust, Dust];
    assert Place(one, 0, Dust) == Ok([Dust, Dust]);
    assert BuildFrom([Dust, Dust], []) == Ok([Dust, Dust]);
    assert BuildFrom(one, [("0", dust)]) == Ok([Dust, Dust]);
    assert Place([], 0, Dust) == Err(Panic);
  }

  /** An inventory in the save file's own layout: item `i` under the key `i`. */
  function EncodeInventoryMap(items: seq<Inventory>): Node {
    Table(seq(|items|, i requires 0 <= i < |items| => (Decimal(i), EncodeInventory(items[i]))))
  }

  /** As written, every non-empty inventory in that layout aborts. */
  lemma DenseInventoryPanics(items: seq<Inventory>)
    requires items != []
    ensures DecodeInventoryMap(EncodeInventoryMap(items)) == Err(Panic)
  {
    InventoryRoundTrip(items[0]);
    FirstKeyZeroPanics(EncodeInventoryMap(items).entries);
  }

  /** With the intended growth, every inventory in that layout reads back. */
  lemma DenseInventoryFills(items: seq<Inventory>)
    requires |items| <= UsizeMax
    ensures FillInventoryMap(EncodeInventoryMap(items)) == Ok(items)
  {
    var entries := EncodeInventoryMap(items).entries;
    DenseFillFrom(items, entries, 0);
    assert items[..0] == [] && entries[0..] == entries;
  }

  lemma {:induction false} DenseFillFrom(items: seq<Inventory>, entries: seq<(string, Node)>, j: nat)
    requires |items| <= UsizeMax && j <= |items|
    requires entries == EncodeInventoryMap(items).entries
    ensures FillFrom(items[..j], entries[j..]) == Ok(items)
    decreases |items| - j
  {
    if j == |items| {
      assert items[..j] == items;
      assert entries[j..] == [];
    } else {
      var rest := entries[j..];
      assert rest[0] == (Decimal(j), EncodeInventory(items[j]));
      assert rest[1..] == entries[j + 1..];
      assert DecodeInventory(rest[0].1) == Ok(items[j]) by {
        InventoryRoundTrip(items[j]);
      }
      assert ParseKey(rest[0].0) == Ok(j) by {
        ParseUnsignedDecimal(j, UsizeMax);
      }
      assert FillFrom(items[..j], rest) == FillFrom(Put(items[..j], j, items[j]), rest[1..]);
      assert Put(items[..j], j, items[j]) == items[..j + 1];
      DenseFillFrom(items, entries, j + 1);
    }
  }

  // ---------------------------------------------------------------------
  // The save record (src/save.rs:6-11)

  /** A save: a table whose `Inventory` entry is read by `deserialize_inventory`;
      other entries are ignored. */
  function DecodeSave(root: Node): (r: Result<Save, DecodeError>)
    ensures !root.Table? ==> r == Err(InvalidType)
    ensures root.Table? && Lookup(root.entries, "Inventory").None? ==> r == Err(MissingField("Inventory"))
    ensures root.Table? && Lookup(root.entries, "Inventory").Some? ==>
      (r.Ok? <==> DecodeInventoryMap(Lookup(root.entries, "Inventory").value).Ok?) &&
      (r.Ok? ==> r.value.inventory == DecodeInventoryMap(Lookup(root.entries, "Inventory").value).value) &&
      (r.Err? ==> r.error == DecodeInventoryMap(Lookup(root.entries, "Inventory").value).error)
  {
    match root
    case Table(entries) => (
      match Lookup(entries, "Inventory")
      case None => Err(MissingField("Inventory"))
      case Some(inventory) =>
        var items :- DecodeInventoryMap(inventory);
        Ok(Save(items)))
    case _ => Err(InvalidType)
  }

  function EncodeSave(save: Save): Node {
    Table([("Inventory", EncodeInventoryMap(save.inventory))])
  }

  /** As written, a save reads back only when its inventory is empty. */
  lemma SaveRoundTrip(save: Save)
    ensures save.inventory == [] ==> DecodeSave(EncodeSave(save)) == Ok(save)
    ensures save.inventory != [] ==> DecodeSave(EncodeSave(save)) == Err(Panic)
  {
    if save.inventory != [] {
      DenseInventoryPanics(save.inventory);
    }
  }
}
