/** The variable cache: a list of bindings, and its file form.  Integers in the file are little-endian. */
module VariableCache {
  import opened Common
  import opened Bytes

  /** The key is a C string without its terminator. */
  datatype Entry = Entry(key: seq<Byte>, value: nat)

  const KeySize: nat := 128
  const ValueSize: nat := 8
  const HeaderSize: nat := 8

  /** A name that fits an entry. */
  predicate Fits(key: seq<Byte>) { |key| < KeySize && 0 !in key }

  predicate EntryFits(e: Entry) { Fits(e.key) && e.value < Power256(ValueSize) }

  predicate AllFit(list: seq<Entry>) { forall e :: e in list ==> EntryFits(e) }

  // ----- the list as a map -----

  /** The first binding of a key counts. */
  function AsMap(list: seq<Entry>): map<seq<Byte>, nat> {
    if list == [] then map[] else AsMap(list[1..])[list[0].key := list[0].value]
  }

  /** The place of the first binding, or the length. */
  function IndexOf(list: seq<Entry>, key: seq<Byte>): (i: nat)
    ensures i <= |list| && (i < |list| ==> list[i].key == key)
    ensures forall j :: 0 <= j < i ==> list[j].key != key
  {
    if list == [] || list[0].key == key then 0
    else
      var i := IndexOf(list[1..], key);
      assert forall j :: 0 < j < i + 1 ==> list[j] == list[1..][j - 1];
      i + 1
  }

  function Bound(list: seq<Entry>, key: seq<Byte>, value: nat): seq<Entry> {
    var i := IndexOf(list, key);
    if i < |list| then list[i := list[i].(value := value)] else [Entry(key, value)] + list
  }

  ghost predicate Distinct(list: seq<Entry>) { forall i, j :: 0 <= i < j < |list| ==> list[i].key != list[j].key }

  lemma {:induction false} AsMapIsFirst(list: seq<Entry>, key: seq<Byte>)
    ensures key in AsMap(list) <==> IndexOf(list, key) < |list|
    ensures key in AsMap(list) ==> AsMap(list)[key] == list[IndexOf(list, key)].value
  {
    if list != [] && list[0].key != key { AsMapIsFirst(list[1..], key); }
  }

  lemma {:induction false} AsMapUpdated(list: seq<Entry>, key: seq<Byte>, value: nat)
    requires IndexOf(list, key) < |list|
    ensures AsMap(Bound(list, key, value)) == AsMap(list)[key := value]
  {
    var bound := Bound(list, key, value);
    if list[0].key == key {
      assert bound[1..] == list[1..];
    } else {
      AsMapUpdated(list[1..], key, value);
      assert bound[1..] == Bound(list[1..], key, value);
    }
  }

  /** Setting refines the update of a map, whether or not keys repeat, and repeats no key. */
  lemma {:induction false} SetRefines(list: seq<Entry>, key: seq<Byte>, value: nat)
    ensures AsMap(Bound(list, key, value)) == AsMap(list)[key := value]
    ensures Distinct(list) ==> Distinct(Bound(list, key, value))
  {
    if IndexOf(list, key) < |list| { AsMapUpdated(list, key, value); }
  }

  /** A 32-bit `int`. */
  function Signed32(x: nat): int { if x < 0x8000_0000 then x else x - 0x1_0000_0000 }

  // ----- writing -----

  function Block(e: Entry): seq<Byte> {
    LittleEndian(|e.key| + 1, 4) + LittleEndian(ValueSize, 4) + (e.key + [0]) + LittleEndian(e.value, ValueSize)
  }

  function Serialized(list: seq<Entry>): seq<Byte> {
    if list == [] then [] else Block(list[0]) + Serialized(list[1..])
  }

  // ----- reading -----

  /** How much of the file `read` takes when asked for `n` bytes; a negative count fails and takes nothing. */
  function Taken(file: seq<Byte>, n: int): (k: nat)
    ensures k <= |file|
  {
    if n < 0 then 0 else if n > |file| then |file| else n
  }

  function Zeros(n: nat): (r: seq<Byte>)
    ensures |r| == n
  {
    seq(n, i => 0)
  }

  /** The buffer after a read of `k` bytes into it. */
  function Filled(file: seq<Byte>, k: nat, buffer: seq<Byte>): (r: seq<Byte>)
    requires k <= |file| && k <= |buffer|
    ensures |r| == |buffer|
  {
    file[..k] + buffer[k..]
  }

  /** The bytes before the first zero. */
  function CString(s: seq<Byte>): seq<Byte> {
    if s == [] || s[0] == 0 then [] else [s[0]] + CString(s[1..])
  }

  /** The name and the rest of the file; `None` where the name overruns its buffer. */
  function ReadKey(file: seq<Byte>, n: int): (r: Option<(seq<Byte>, seq<Byte>)>)
    ensures r.Some? ==> |r.value.1| <= |file|
  {
    var k := Taken(file, n);
    if k > KeySize then None
    else
      var key := Filled(file, k, Zeros(KeySize));
      if 0 !in key then None else Some((CString(key), file[k..]))
  }

  /** The value and the rest of the file; `None` where the value overruns its variable. */
  function ReadValue(file: seq<Byte>, n: int): (r: Option<(nat, seq<Byte>)>)
    ensures r.Some? ==> |r.value.1| <= |file|
  {
    var k := Taken(file, n);
    if k > ValueSize then None
    else Some((FromLittleEndian(Filled(file, k, Zeros(ValueSize))), file[k..]))
  }

  /** One turn of the read loop: the rest of the file, the header it leaves and the entry it makes. */
  function ReadEntry(file: seq<Byte>, header: seq<Byte>): (r: Option<(seq<Byte>, seq<Byte>, Entry)>)
    requires file != [] && |header| == HeaderSize
    ensures r.Some? ==> |r.value.0| < |file| && |r.value.1| == HeaderSize
  {
    var h := Taken(file, HeaderSize);
    var block := Filled(file, h, header);
    var key := ReadKey(file[h..], Signed32(FromLittleEndian(block[..4])));
    if key.None? then None
    else
      var value := ReadValue(key.value.1, Signed32(FromLittleEndian(block[4..])));
      if value.None? then None else Some((value.value.1, block, Entry(key.value.0, value.value.0)))
  }

  /** The list after reading a file: each entry goes to the front. */
  function Unserialized(file: seq<Byte>, header: seq<Byte>, list: seq<Entry>): Option<seq<Entry>>
    requires |header| == HeaderSize
    decreases |file|
  {
    if file == [] then Some(list)
    else
      var r := ReadEntry(file, header);
      if r.None? then None else Unserialized(r.value.0, r.value.1, [r.value.2] + list)
  }

  class Cache {
    var root: seq<Entry>

    constructor ()
      ensures root == []
    {
      root := [];
    }

    method Find(name: seq<Byte>) returns (i: nat)
      ensures i == IndexOf(root, name)
    {
      i := 0;
      while i < |root|
        invariant i <= IndexOf(root, name)
      {
        if name == root[i].key { return; }
        i := i + 1;
      }
    }

    method Set(name: seq<Byte>, value: nat)
      requires Fits(name)
      modifies this
      ensures root == Bound(old(root), name, value)
      ensures AsMap(root) == AsMap(old(root))[name := value]
      ensures Distinct(old(root)) ==> Distinct(root)
      ensures AllFit(old(root)) && value < Power256(ValueSize) ==> AllFit(root)
    {
      hide Power256;
      SetRefines(root, name, value);
      var i := Find(name);
      if i < |root| {
        root := root[i := root[i].(value := value)];
        return;
      }
      root := [Entry(name, value)] + root;
    }

    method Get(name: seq<Byte>) returns (value: nat)
      ensures value == if name in AsMap(root) then AsMap(root)[name] else 0
    {
      AsMapIsFirst(root, name);
      var i := Find(name);
      return if i < |root| then root[i].value else 0;
    }

    /** The three writes for an entry. */
    static method MakeBlock(entry: Entry) returns (written: seq<Byte>)
      ensures written == Block(entry)
    {
      written := LittleEndian(|entry.key| + 1, 4) + LittleEndian(ValueSize, 4);
      written := written + (entry.key + [0]);
      written := written + LittleEndian(entry.value, ValueSize);
    }

    /** The file written, if it could be opened. */
    method SerializedToFile(opens: bool) returns (file: Option<seq<Byte>>)
      ensures file == if opens then Some(Serialized(root)) else None
    {
      if !opens { return None; }
      var written := [];
      for i := 0 to |root|
        invariant written + Serialized(root[i..]) == Serialized(root)
      {
        assert root[i..][1..] == root[i + 1..];
        hide Block;
        var block := MakeBlock(root[i]);
        assert written + (block + Serialized(root[i + 1..])) == (written + block) + Serialized(root[i + 1..]);
        written := written + block;
      }
      assert root[|root|..] == [] && written + [] == written;
      return Some(written);
    }

    /** Reads a file, if it can be opened; false where a buffer is overrun. */
    method UnserializedFromFile(file: Option<seq<Byte>>) returns (defined: bool)
      modifies this
      ensures file.None? ==> defined && root == old(root)
      ensures file.Some? ==> defined == Unserialized(file.value, Zeros(HeaderSize), old(root)).Some?
      ensures file.Some? && defined ==> Some(root) == Unserialized(file.value, Zeros(HeaderSize), old(root))
    {
      if file.None? { return true; }
      var rest, header := file.value, Zeros(HeaderSize);
      while rest != []
        invariant |header| == HeaderSize
        invariant Unserialized(rest, header, root) == Unserialized(file.value, Zeros(HeaderSize), old(root))
        decreases |rest|
      {
        var r := ReadEntry(rest, header);
        if r.None? { return false; }
        rest, header := r.value.0, r.value.1;
        root := [r.value.2] + root;
      }
      return true;
    }
  }

  // ----- what is set, written and read -----

  /** Setting a name that is bound changes the value of its first entry and nothing else; a new name's entry goes in
      front. */
  lemma {:induction false} SetExactly(list: seq<Entry>, name: seq<Byte>, value: nat, i: nat)
    requires i <= |list| && (i < |list| ==> list[i].key == name) && forall j :: 0 <= j < i ==> list[j].key != name
    ensures var after := Bound(list, name, value);
            if i < |list| then
              && |after| == |list| && after[i] == Entry(name, value)
              && forall j :: 0 <= j < |list| && j != i ==> after[j] == list[j]
            else |after| == |list| + 1 && after[0] == Entry(name, value) && after[1..] == list
  {
    assert IndexOf(list, name) == i;
    assert i == |list| ==> Bound(list, name, value)[1..] == list;
  }

  /** The file form of an entry, byte by byte: the length of the name with its terminator and the length of the
      value, four bytes each with the least significant first; the name and its terminator; the value in eight bytes
      likewise. */
  lemma {:induction false} BlockBytes(e: Entry)
    ensures var block, n := Block(e), |e.key|;
            && |block| == 8 + n + 1 + 8
            && (forall k :: 0 <= k < 4 ==> block[k] == ((n + 1) / Power256(k)) % 256)
            && block[4] == 8 && block[5] == 0 && block[6] == 0 && block[7] == 0
            && (forall k :: 0 <= k < n ==> block[8 + k] == e.key[k]) && block[8 + n] == 0
            && forall k :: 0 <= k < 8 ==> block[8 + n + 1 + k] == (e.value / Power256(k)) % 256
  {
    var n := |e.key|;
    EightInFour();
    forall k | 0 <= k < 4 ensures LittleEndian(n + 1, 4)[k] == ((n + 1) / Power256(k)) % 256 {
      LittleEndianDigit(n + 1, 4, k);
    }
    forall k | 0 <= k < 8 ensures LittleEndian(e.value, 8)[k] == (e.value / Power256(k)) % 256 {
      LittleEndianDigit(e.value, 8, k);
    }
    hide Power256, LittleEndian;
  }

  lemma {:induction false} EightInFour()
    ensures LittleEndian(8, 4) == [8, 0, 0, 0]
  {}

  /** A C string ends before its first zero. */
  lemma {:induction false} CStringExactly(s: seq<Byte>)
    ensures var r := CString(s);
            |r| <= |s| && r == s[..|r|] && 0 !in r && (|r| < |s| ==> s[|r|] == 0)
  {
    if s != [] && s[0] != 0 {
      CStringExactly(s[1..]);
      assert CString(s) == s[..|CString(s)|];
    }
  }

  /** A name overruns its buffer, on being read or on being copied, if and only if more than 128 bytes are read, or
      exactly 128 without a zero. */
  lemma {:induction false} KeyOverrunsExactly(file: seq<Byte>, n: int)
    ensures var k := Taken(file, n);
            && k == (if n < 0 then 0 else if n <= |file| then n else |file|)
            && (ReadKey(file, n).None? <==> k > 128 || (k == 128 && 0 !in file[..128]))
  {
    var k := Taken(file, n);
    if k < 128 { assert Filled(file, k, Zeros(KeySize))[127] == 0; }
    if k == 128 { assert Filled(file, k, Zeros(KeySize)) == file[..128]; }
  }

  /** A value overruns its variable if and only if more than 8 bytes are read; a shorter one is filled up with zeros. */
  lemma {:induction false} ValueReadExactly(file: seq<Byte>, n: int)
    ensures var k := Taken(file, n);
            && (ReadValue(file, n).None? <==> k > 8)
            && (k <= 8 ==> ReadValue(file, n) == Some((FromLittleEndian(file[..k]), file[k..])))
  {
    var k := Taken(file, n);
    if k <= 8 {
      assert Filled(file, k, Zeros(ValueSize)) == file[..k] + Zeros(8 - k);
      TrailingZeros(file[..k], 8 - k);
    }
  }

  lemma {:induction false} TrailingZeros(s: seq<Byte>, n: nat)
    ensures FromLittleEndian(s + Zeros(n)) == FromLittleEndian(s)
  {
    if s != [] {
      assert (s + Zeros(n))[1..] == s[1..] + Zeros(n);
      TrailingZeros(s[1..], n);
    } else {
      assert s + Zeros(n) == Zeros(n);
      OnlyZeros(n);
    }
  }

  lemma {:induction false} OnlyZeros(n: nat)
    ensures FromLittleEndian(Zeros(n)) == 0
  {
    if n > 0 {
      assert Zeros(n)[1..] == Zeros(n - 1);
      OnlyZeros(n - 1);
    }
  }

  /** One to seven bytes at the end of a file, too few for a header, add an entry with an empty name and value 0. */
  lemma {:induction false} TrailingBytes(file: seq<Byte>, header: seq<Byte>, list: seq<Entry>)
    requires |header| == HeaderSize && 0 < |file| < HeaderSize
    ensures Unserialized(file, header, list) == Some([Entry([], 0)] + list)
  {
    var block := Filled(file, |file|, header);
    assert file[|file|..] == [];
    NothingRead(Signed32(FromLittleEndian(block[..4])));
    NothingRead(Signed32(FromLittleEndian(block[4..])));
    assert ReadEntry(file, header) == Some(([], block, Entry([], 0)));
  }

  lemma {:induction false} NothingRead(n: int)
    ensures ReadKey([], n) == Some(([], [])) && ReadValue([], n) == Some((0, []))
  {
    assert Filled([], 0, Zeros(KeySize)) == Zeros(KeySize) && Zeros(KeySize)[0] == 0;
    ValueReadExactly([], n);
  }

  // ----- round trips -----

  function Reversed(list: seq<Entry>): (r: seq<Entry>)
    ensures |r| == |list|
  {
    if list == [] then [] else Reversed(list[1..]) + [list[0]]
  }

  lemma {:induction false} CStringStops(key: seq<Byte>, rest: seq<Byte>)
    requires 0 !in key && rest != [] && rest[0] == 0
    ensures CString(key + rest) == key
  {
    if key != [] {
      assert (key + rest)[1..] == key[1..] + rest;
      CStringStops(key[1..], rest);
    } else {
      assert key + rest == rest;
    }
  }

  lemma {:induction false} SmallNumbers(x: nat)
    requires x <= KeySize
    ensures Signed32(FromLittleEndian(LittleEndian(x, 4))) == x
  {
    assert Power256(4) == 0x1_0000_0000 by { assert Power256(2) == 65536; }
    LittleEndianRoundTrip(x, 4);
  }

  lemma {:induction false} KeyRoundTrip(key: seq<Byte>, rest: seq<Byte>)
    requires Fits(key)
    ensures ReadKey((key + [0]) + rest, |key| + 1) == Some((key, rest))
  {
    var n, file := |key| + 1, (key + [0]) + rest;
    var padding := Zeros(KeySize)[n..];
    assert file[..n] == key + [0] && file[n..] == rest;
    assert Filled(file, n, Zeros(KeySize)) == key + ([0] + padding);
    assert (key + ([0] + padding))[|key|] == 0;
    CStringStops(key, [0] + padding);
  }

  lemma {:induction false} ValueRoundTrip(value: nat, rest: seq<Byte>)
    requires value < Power256(ValueSize)
    ensures ReadValue(LittleEndian(value, ValueSize) + rest, ValueSize) == Some((value, rest))
  {
    hide Power256, LittleEndian, FromLittleEndian;
    var file := LittleEndian(value, ValueSize) + rest;
    assert file[..ValueSize] == LittleEndian(value, ValueSize) && file[ValueSize..] == rest;
    assert Filled(file, ValueSize, Zeros(ValueSize)) == LittleEndian(value, ValueSize);
    LittleEndianRoundTrip(value, ValueSize);
  }

  /** An entry that was written is read back, and what follows it is left. */
  lemma {:induction false} BlockRoundTrip(e: Entry, rest: seq<Byte>, header: seq<Byte>)
    requires EntryFits(e) && |header| == HeaderSize
    ensures var r := ReadEntry(Block(e) + rest, header);
            r.Some? && r.value.0 == rest && r.value.2 == e
  {
    hide Power256, LittleEndian, FromLittleEndian, ReadKey, ReadValue;
    var n, file := |e.key| + 1, Block(e) + rest;
    var first, second, value := LittleEndian(n, 4), LittleEndian(ValueSize, 4), LittleEndian(e.value, ValueSize);
    var block := Filled(file, 8, header);
    assert block == first + second;
    assert block[..4] == first && block[4..] == second;
    SmallNumbers(n);
    SmallNumbers(ValueSize);
    assert file[8..] == (e.key + [0]) + (value + rest);
    KeyRoundTrip(e.key, value + rest);
    ValueRoundTrip(e.value, rest);
  }

  lemma {:induction false} CStringFits(s: seq<Byte>)
    requires 0 in s
    ensures |CString(s)| < |s| && 0 !in CString(s)
  {
    if s[0] != 0 { CStringFits(s[1..]); }
  }

  lemma {:induction false} ReadKeyFits(file: seq<Byte>, n: int)
    requires ReadKey(file, n).Some?
    ensures Fits(ReadKey(file, n).value.0)
  {
    CStringFits(Filled(file, Taken(file, n), Zeros(KeySize)));
  }

  lemma {:induction false} ReadValueFits(file: seq<Byte>, n: int)
    requires ReadValue(file, n).Some?
    ensures ReadValue(file, n).value.0 < Power256(ValueSize)
  {
    FromLittleEndianBound(Filled(file, Taken(file, n), Zeros(ValueSize)));
  }

  /** Whatever file is read, if no buffer is overrun then every entry of the cache can be written again. */
  lemma {:induction false} ReadingKeepsFit(file: seq<Byte>, header: seq<Byte>, list: seq<Entry>)
    requires |header| == HeaderSize && AllFit(list) && Unserialized(file, header, list).Some?
    ensures AllFit(Unserialized(file, header, list).value)
    decreases |file|
  {
    if file != [] {
      hide EntryFits, Power256, FromLittleEndian, ReadKey, ReadValue;
      var r := ReadEntry(file, header).value;
      assert EntryFits(r.2) by { ReadEntryFits(file, header); }
      ReadingKeepsFit(r.0, r.1, [r.2] + list);
    }
  }

  lemma {:induction false} ReadEntryFits(file: seq<Byte>, header: seq<Byte>)
    requires file != [] && |header| == HeaderSize && ReadEntry(file, header).Some?
    ensures EntryFits(ReadEntry(file, header).value.2)
  {
    hide Power256, FromLittleEndian, ReadKey, ReadValue, Fits;
    var h := Taken(file, HeaderSize);
    var block := Filled(file, h, header);
    var n := Signed32(FromLittleEndian(block[..4]));
    ReadKeyFits(file[h..], n);
    ReadValueFits(ReadKey(file[h..], n).value.1, Signed32(FromLittleEndian(block[4..])));
  }

  /** Reading a written list puts its reverse in front of what was there. */
  lemma {:induction false} ReadBack(list: seq<Entry>, header: seq<Byte>, cache: seq<Entry>)
    requires AllFit(list) && |header| == HeaderSize
    ensures Unserialized(Serialized(list), header, cache) == Some(Reversed(list) + cache)
    decreases |list|
  {
    hide EntryFits, Block, ReadEntry;
    if list == [] {
      assert Reversed(list) + cache == cache;
    } else {
      var e, rest := list[0], Serialized(list[1..]);
      BlockRoundTrip(e, rest, header);
      var r := ReadEntry(Block(e) + rest, header);
      ReadBack(list[1..], r.value.1, [e] + cache);
      assert Reversed(list[1..]) + ([e] + cache) == Reversed(list) + cache;
    }
  }

  lemma {:induction false} ReversedJoin(a: seq<Entry>, b: seq<Entry>)
    ensures Reversed(a + b) == Reversed(b) + Reversed(a)
  {
    if a == [] {
      assert a + b == b;
    } else {
      assert (a + b)[1..] == a[1..] + b;
      ReversedJoin(a[1..], b);
    }
  }

  lemma {:induction false} ReversedTwice(list: seq<Entry>)
    ensures Reversed(Reversed(list)) == list
    ensures forall e :: e in Reversed(list) <==> e in list
  {
    if list != [] {
      ReversedJoin(Reversed(list[1..]), [list[0]]);
      assert Reversed([list[0]]) == [list[0]];
      ReversedTwice(list[1..]);
    }
  }

  /** Saving and loading twice, each time into an empty cache, restores the list itself. */
  lemma {:induction false} TwoRoundTrips(list: seq<Entry>)
    requires AllFit(list)
    ensures var once := Unserialized(Serialized(list), Zeros(HeaderSize), []);
            once == Some(Reversed(list)) && Unserialized(Serialized(once.value), Zeros(HeaderSize), []) == Some(list)
  {
    ReadBack(list, Zeros(HeaderSize), []);
    ReversedTwice(list);
    ReadBack(Reversed(list), Zeros(HeaderSize), []);
    assert Reversed(list) + [] == Reversed(list) && list + [] == list;
  }

  // ----- lookups after loading -----

  /** Bindings in front override those behind. */
  lemma {:induction false} AsMapJoin(a: seq<Entry>, b: seq<Entry>)
    ensures AsMap(a + b) == AsMap(b) + AsMap(a)
  {
    if a == [] {
      assert a + b == b;
    } else {
      assert (a + b)[1..] == a[1..] + b;
      AsMapJoin(a[1..], b);
    }
  }

  /** The binding is the last one of its key. */
  ghost predicate LastFor(list: seq<Entry>, i: nat)
    requires i < |list|
  {
    forall j :: i < j < |list| ==> list[j].key != list[i].key
  }

  /** In every key's case the last binding has the value of the first. */
  ghost predicate Agreeing(list: seq<Entry>) {
    forall i :: 0 <= i < |list| && LastFor(list, i) ==> list[i].value == list[IndexOf(list, list[i].key)].value
  }

  lemma {:induction false} ReversedIsLast(list: seq<Entry>, i: nat)
    requires i < |list| && LastFor(list, i)
    ensures list[i].key in AsMap(Reversed(list)) && AsMap(Reversed(list))[list[i].key] == list[i].value
    decreases |list|
  {
    AsMapJoin(Reversed(list[1..]), [list[0]]);
    if i > 0 {
      assert LastFor(list[1..], i - 1);
      ReversedIsLast(list[1..], i - 1);
    } else {
      assert list[0].key !in AsMap(Reversed(list[1..])) by { ReversedKeys(list[1..], list[0].key); }
    }
  }

  lemma {:induction false} ReversedKeys(list: seq<Entry>, key: seq<Byte>)
    ensures key in AsMap(Reversed(list)) <==> exists i :: 0 <= i < |list| && list[i].key == key
  {
    if list != [] {
      AsMapJoin(Reversed(list[1..]), [list[0]]);
      ReversedKeys(list[1..], key);
      assert list[0].key == key || forall i :: 0 <= i < |list| && list[i].key == key ==> list[1..][i - 1].key == key;
      assert forall i :: 0 <= i < |list[1..]| ==> list[1..][i] == list[i + 1];
    }
  }

  /** The place of a key's last binding. */
  lemma {:induction false} LastExists(list: seq<Entry>, i: nat) returns (last: nat)
    requires i < |list|
    ensures last < |list| && list[last].key == list[i].key && LastFor(list, last)
    decreases |list| - i
  {
    if LastFor(list, i) {
      last := i;
    } else {
      var j :| i < j < |list| && list[j].key == list[i].key;
      last := LastExists(list, j);
    }
  }

  /** Every lookup survives saving and loading if and only if no key's last binding differs from its first. */
  lemma {:induction false} LookupsSurvive(list: seq<Entry>)
    requires AllFit(list)
    ensures var loaded := Unserialized(Serialized(list), Zeros(HeaderSize), []);
            loaded.Some? && (AsMap(loaded.value) == AsMap(list) <==> Agreeing(list))
  {
    hide AllFit, Serialized, Unserialized, Agreeing, AsMap;
    ReadBack(list, Zeros(HeaderSize), []);
    assert Reversed(list) + [] == Reversed(list);
    ReversedLookups(list);
  }

  lemma {:induction false} ReversedLookups(list: seq<Entry>)
    ensures AsMap(Reversed(list)) == AsMap(list) <==> Agreeing(list)
  {
    forall key ensures key in AsMap(Reversed(list)) <==> key in AsMap(list) {
      ReversedKeys(list, key);
      AsMapIsFirst(list, key);
    }
    forall i | 0 <= i < |list| && LastFor(list, i)
      ensures list[i].key in AsMap(Reversed(list)) && AsMap(Reversed(list))[list[i].key] == list[i].value
      ensures list[i].key in AsMap(list) && AsMap(list)[list[i].key] == list[IndexOf(list, list[i].key)].value
    {
      ReversedIsLast(list, i);
      AsMapIsFirst(list, list[i].key);
    }
    if Agreeing(list) {
      forall key | key in AsMap(list) ensures AsMap(Reversed(list))[key] == AsMap(list)[key] {
        AsMapIsFirst(list, key);
        var last := LastExists(list, IndexOf(list, key));
      }
    }
  }

  /** In particular they do when no key repeats. */
  lemma {:induction false} DistinctSurvives(list: seq<Entry>)
    requires AllFit(list) && Distinct(list)
    ensures var loaded := Unserialized(Serialized(list), Zeros(HeaderSize), []);
            loaded.Some? && AsMap(loaded.value) == AsMap(list)
  {
    hide AllFit, Serialized, Unserialized, Agreeing, AsMap;
    DistinctAgrees(list);
    LookupsSurvive(list);
  }

  lemma {:induction false} DistinctAgrees(list: seq<Entry>)
    requires Distinct(list)
    ensures Agreeing(list)
  {
    assert Agreeing(list) by {
      forall i | 0 <= i < |list| ensures IndexOf(list, list[i].key) == i {
        var k := IndexOf(list, list[i].key);
        assert k <= i;
      }
    }
  }

  /** Loading a list without repetition into a cache overrides the bindings there, and keeps the others. */
  lemma {:induction false} LoadingOverrides(list: seq<Entry>, cache: seq<Entry>)
    requires AllFit(list) && Distinct(list)
    ensures var loaded := Unserialized(Serialized(list), Zeros(HeaderSize), cache);
            loaded.Some? && AsMap(loaded.value) == AsMap(cache) + AsMap(list)
  {
    ReadBack(list, Zeros(HeaderSize), cache);
    AsMapJoin(Reversed(list), cache);
    DistinctAgrees(list);
    ReversedLookups(list);
  }

  /** A binding that was overridden by loading comes back at the next saving and loading. */
  lemma {:induction false} OverriddenComesBack(key: seq<Byte>, older: nat, newer: nat)
    requires EntryFits(Entry(key, older)) && EntryFits(Entry(key, newer)) && older != newer
    ensures var loaded := Unserialized(Serialized([Entry(key, newer)]), Zeros(HeaderSize), [Entry(key, older)]);
            && loaded.Some? && AsMap(loaded.value) == map[key := newer]
            && var again := Unserialized(Serialized(loaded.value), Zeros(HeaderSize), []);
               again.Some? && AsMap(again.value) == map[key := older]
  {
    var a, b := Entry(key, newer), Entry(key, older);
    hide EntryFits, Serialized, Unserialized, Zeros;
    PairReversed(a, b);
    ReadBack([a], Zeros(HeaderSize), [b]);
    ReadBack([a, b], Zeros(HeaderSize), []);
  }

  lemma {:induction false} PairReversed(a: Entry, b: Entry)
    ensures Reversed([a]) + [b] == [a, b] && Reversed([a, b]) + [] == [b, a]
    ensures AsMap([a, b]) == map[b.key := b.value][a.key := a.value]
    ensures AsMap([b, a]) == map[a.key := a.value][b.key := b.value]
  {
    assert [a, b][1..] == [b] && [b, a][1..] == [a] && [a][1..] == [] && [b][1..] == [];
    assert AsMap([b]) == map[b.key := b.value] && AsMap([a]) == map[a.key := a.value];
  }
}
