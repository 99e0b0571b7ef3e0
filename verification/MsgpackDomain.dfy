/** Which values `packb` takes, and that everything `unpackb` returns is one of them. */
module MsgpackDomain {
  import opened Bytes
  import opened Results
  import opened PythonValues
  import opened Msgpack
  import opened MsgpackLaws

  /** The sizes MessagePack has room for. */
  predicate Fits(v: Value) {
    match v
    case Int(n) => -0x8000_0000_0000_0000 <= n < 0x1_0000_0000_0000_0000
    case Bin(data) => |data| < 0x1_0000_0000
    case Text(utf8) => |utf8| < 0x1_0000_0000
    case List(items) => |items| < 0x1_0000_0000 && forall k | 0 <= k < |items| :: Fits(items[k])
    case Map(entries) =>
      |entries| < 0x1_0000_0000 && forall k | 0 <= k < |entries| :: Fits(entries[k].key) && Fits(entries[k].value)
    case _ => true
  }

  lemma PowersOf256()
    ensures Pow256(1) == 0x100 && Pow256(2) == 0x1_0000 && Pow256(4) == 0x1_0000_0000
    ensures Pow256(8) == 0x1_0000_0000_0000_0000
  {
    assert Pow256(3) == 0x100_0000 && Pow256(5) == 0x100_0000_0000;
    assert Pow256(6) == 0x1_0000_0000_0000 && Pow256(7) == 0x100_0000_0000_0000;
  }

  /** `packb` refuses exactly the values with a part too large for the format. */
  lemma {:induction false} PackIffFits(v: Value)
    ensures Pack(v).Ok? <==> Fits(v)
    decreases v, 0
  {
    PowersOf256();
    match v {
      case List(items) => PackItemsIffFit(items);
      case Map(entries) => PackEntriesIffFit(entries);
      case _ =>
    }
  }

  lemma {:induction false} PackItemsIffFit(items: seq<Value>)
    ensures PackItems(items).Ok? <==> forall k | 0 <= k < |items| :: Fits(items[k])
    decreases items, 0
  {
    if items != [] {
      PackIffFits(items[0]);
      PackItemsIffFit(items[1..]);
      assert forall k | 0 < k < |items| :: items[k] == items[1..][k - 1];
    }
  }

  lemma {:induction false} PackEntryIffFits(entry: Entry)
    ensures PackEntry(entry).Ok? <==> Fits(entry.key) && Fits(entry.value)
    decreases entry, 0
  {
    PackIffFits(entry.key);
    PackIffFits(entry.value);
  }

  lemma {:induction false} PackEntriesIffFit(entries: seq<Entry>)
    ensures PackEntries(entries).Ok? <==>
            forall k | 0 <= k < |entries| :: Fits(entries[k].key) && Fits(entries[k].value)
    decreases entries, 0
  {
    if entries != [] {
      PackEntryIffFits(entries[0]);
      PackEntriesIffFit(entries[1..]);
      assert forall k | 0 < k < |entries| :: entries[k] == entries[1..][k - 1];
    }
  }

  predicate Sound(v: Value) { Representable(v) && Fits(v) }

  predicate SoundEntry(e: Entry) { Hashable(e.key) && Sound(e.key) && Sound(e.value) }

  /** The entry an assignment to `key` replaces: the first the dictionary takes for that key. */
  predicate IsFirst(out: seq<Entry>, key: Value, k: nat)
    requires k < |out|
  {
    SameKey(out[k].key, key) && forall j | 0 <= j < k :: !SameKey(out[j].key, key)
  }

  /** An assignment keeps every key where it was and adds its own only if it is new; the entry
      with that key holds the value afterwards, and every other entry what it held. */
  lemma {:induction false} PutKeepsKeys(out: seq<Entry>, key: Value, value: Value)
    ensures var r := Put(out, key, value);
            && |r| == |out| + (if IsNewKey(out, key) then 1 else 0)
            && (forall k | 0 <= k < |out| :: r[k].key == out[k].key)
            && (forall k | 0 <= k < |out| :: r[k].value == if IsFirst(out, key, k) then value else out[k].value)
            && (IsNewKey(out, key) ==> r[|out|] == Entry(key, value))
  {
    hide SameKey, Put, IsFirst, IsNewKey;
    if out == [] {
      PutAlone(key, value);
    } else {
      PutOneMore(out, key, value);
      if SameKey(out[0].key, key) {
        OnlyTheFirst(out, key);
      } else {
        PutKeepsKeys(out[1..], key, value);
        FirstAmongTheRest(out, key);
        forall k | 0 < k < |out|
          ensures Put(out, key, value)[k] == Put(out[1..], key, value)[k - 1] && out[k] == out[1..][k - 1]
        {
        }
      }
    }
  }

  lemma PutAlone(key: Value, value: Value)
    ensures Put([], key, value) == [Entry(key, value)] && IsNewKey([], key)
  {
  }

  lemma PutOneMore(out: seq<Entry>, key: Value, value: Value)
    requires out != []
    ensures Put(out, key, value)
         == if SameKey(out[0].key, key) then [Entry(out[0].key, value)] + out[1..]
            else [out[0]] + Put(out[1..], key, value)
  {
    hide SameKey;
  }

  lemma OnlyTheFirst(out: seq<Entry>, key: Value)
    requires out != [] && SameKey(out[0].key, key)
    ensures !IsNewKey(out, key) && IsFirst(out, key, 0) && forall k | 0 < k < |out| :: !IsFirst(out, key, k)
  {
    hide SameKey;
  }

  lemma FirstAmongTheRest(out: seq<Entry>, key: Value)
    requires out != [] && !SameKey(out[0].key, key)
    ensures !IsFirst(out, key, 0)
    ensures forall k | 0 < k < |out| :: IsFirst(out, key, k) <==> IsFirst(out[1..], key, k - 1)
    ensures IsNewKey(out, key) <==> IsNewKey(out[1..], key)
  {
    hide SameKey;
    var rest := out[1..];
    assert forall j | 0 < j < |out| :: out[j] == rest[j - 1];
    assert forall j | 0 <= j < |rest| :: rest[j] == out[j + 1];
  }

  predicate SoundEntries(out: seq<Entry>) {
    DistinctKeys(out) && forall k | 0 <= k < |out| :: SoundEntry(out[k])
  }

  lemma PutKeepsEntriesSound(out: seq<Entry>, key: Value, value: Value)
    requires SoundEntries(out) && Hashable(key) && Sound(key) && Sound(value)
    ensures SoundEntries(Put(out, key, value)) && |Put(out, key, value)| <= |out| + 1
  {
    hide Sound, SameKey, Hashable, Put;
    PutKeepsKeys(out, key, value);
  }

  lemma HeadIsSound(b: seq<Byte>, i: nat)
    requires UnpackHead(b, i).Ok?
    ensures UnpackHead(b, i).value.Leaf? ==> Sound(UnpackHead(b, i).value.value)
    ensures UnpackHead(b, i).value.Items? ==> UnpackHead(b, i).value.count < 0x1_0000_0000
    ensures UnpackHead(b, i).value.Entries? ==> UnpackHead(b, i).value.count < 0x1_0000_0000
  {
    PowersOf256();
    hide FromBigEndian, Pow256, ValidUtf8, Widened;
    KindBounds(b[i]);
  }

  lemma KindBounds(t: Byte)
    ensures match KindOf(t)
            case Immediate(v) => Sound(v)
            case Body(n) => n < 32
            case SizedBody(w, _) => w == 1 || w == 2 || w == 4
            case Unsigned(w) => w == 1 || w == 2 || w == 4 || w == 8
            case Signed(w) => w == 1 || w == 2 || w == 4 || w == 8
            case Elements(n, _) => n < 16
            case Counted(w, _) => w == 2 || w == 4
            case _ => true
  {
  }

  /** Whatever decodes at all is a Python value that can be packed again. */
  lemma {:induction false} UnpackedIsSound(b: seq<Byte>, i: nat)
    requires Unpack(b, i).Ok?
    ensures Sound(Unpack(b, i).value.value)
    decreases Remaining(b, i), 0
  {
    HeadIsSound(b, i);
    hide UnpackHead;
    match UnpackHead(b, i).value {
      case Leaf(_, _) =>
      case Items(n, at) => ItemsAreSound(b, at, n, []);
      case Entries(n, at) => EntriesAreSound(b, at, n, []);
    }
  }

  lemma SoundList(items: seq<Value>)
    requires |items| < 0x1_0000_0000 && forall k | 0 <= k < |items| :: Sound(items[k])
    ensures Sound(List(items))
  {
  }

  lemma SoundMap(entries: seq<Entry>)
    requires |entries| < 0x1_0000_0000 && SoundEntries(entries)
    ensures Sound(Map(entries))
  {
  }

  lemma {:induction false} ItemsAreSound(b: seq<Byte>, i: nat, n: nat, out: seq<Value>)
    requires i <= |b| && UnpackItems(b, i, n, out).Ok? && |out| + n < 0x1_0000_0000
    requires forall k | 0 <= k < |out| :: Sound(out[k])
    ensures Sound(UnpackItems(b, i, n, out).value.value)
    decreases Remaining(b, i), 1
  {
    hide Unpack, Sound;
    if n == 0 {
      SoundList(out);
    } else {
      UnpackedIsSound(b, i);
      var d := Unpack(b, i).value;
      ItemsAreSound(b, d.end, n - 1, out + [d.value]);
    }
  }

  lemma {:induction false} EntriesAreSound(b: seq<Byte>, i: nat, n: nat, out: seq<Entry>)
    requires i <= |b| && UnpackEntries(b, i, n, out).Ok? && |out| + n < 0x1_0000_0000
    requires SoundEntries(out)
    ensures Sound(UnpackEntries(b, i, n, out).value.value)
    decreases Remaining(b, i), 1
  {
    hide Unpack, Sound, Hashable, SoundEntries, Put;
    if n == 0 {
      SoundMap(out);
    } else {
      UnpackedIsSound(b, i);
      var k := Unpack(b, i).value;
      UnpackedIsSound(b, k.end);
      var v := Unpack(b, k.end).value;
      PutKeepsEntriesSound(out, k.value, v.value);
      EntriesAreSound(b, v.end, n - 1, Put(out, k.value, v.value));
    }
  }

  /** No map is decoded with a list or a map for a key. */
  lemma KeysAreNoContainers(b: seq<Byte>, i: nat, k: nat)
    requires Unpack(b, i).Ok? && Unpack(b, i).value.value.Map? && k < |Unpack(b, i).value.value.entries|
    ensures var key := Unpack(b, i).value.value.entries[k].key; !key.List? && !key.Map?
  {
    hide Unpack;
    UnpackedIsSound(b, i);
  }

  /** Repacking what was decoded, canonical or not, decodes to the same value again. */
  lemma {:induction false} Repacks(b: seq<Byte>)
    requires UnpackAll(b).Ok?
    ensures Pack(UnpackAll(b).value).Ok?
    ensures UnpackAll(Pack(UnpackAll(b).value).value) == UnpackAll(b)
  {
    UnpackedIsSound(b, 0);
    PackIffFits(UnpackAll(b).value);
    RoundTrip(UnpackAll(b).value);
  }

  /** Why `packb` refuses what it is given alone: an integer for its value, bytes and text for
      their length, a list or a map for its count. */
  lemma PackRefusals(v: Value)
    ensures v.Int? ==>
            (Pack(v) == Err(DoesNotFit(v.n)) <==> !(-0x8000_0000_0000_0000 <= v.n < 0x1_0000_0000_0000_0000))
    ensures v.Bin? ==> (Pack(v) == Err(CannotPack) <==> |v.data| >= 0x1_0000_0000)
    ensures v.Text? ==> (Pack(v) == Err(CannotPack) <==> |v.utf8| >= 0x1_0000_0000)
    ensures v.List? && |v.items| >= 0x1_0000_0000 ==> Pack(v) == Err(TooManyElements)
    ensures v.Map? && |v.entries| >= 0x1_0000_0000 ==> Pack(v) == Err(TooManyElements)
  {
    PowersOf256();
    hide BigEndian, Pow256;
  }
}
