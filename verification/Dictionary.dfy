/**
 The attribute dictionary (dict.c): a list with insertion at the front, so that later definitions
 override earlier ones, and a cache of 256 slots for the attributes that occur on the wire.
 Numbers are 32-bit signed integers.
 */
module Dictionary {
  import opened Octets

  const MAX_NAME := 39

  predicate Int32(x: int)
  {
    -0x8000_0000 <= x < 0x8000_0000
  }

  function ToWord(x: int): (w: word)
  {
    x % WORD
  }

  /** `number` holds the vendor in its upper half; `vendor` is the one the attribute was added for. */
  datatype Attribute = Attribute(name: string, number: int, vendor: int, typ: int, flags: int)

  function Lower(c: char): (l: char)
  {
    if 'A' <= c <= 'Z' then (c as int + 32) as char else c
  }

  /** strcasecmp finds no difference. */
  predicate SameName(a: string, b: string)
  {
    |a| == |b| && forall i :: 0 <= i < |a| ==> Lower(a[i]) == Lower(b[i])
  }

  /** The first attribute of the list with this number. */
  function Find(attributes: seq<Attribute>, number: int): (r: Option<Attribute>)
  {
    if attributes == [] then None
    else if attributes[0].number == number then Some(attributes[0])
    else Find(attributes[1..], number)
  }

  function FindName(attributes: seq<Attribute>, name: string): (r: Option<Attribute>)
  {
    if attributes == [] then None
    else if SameName(attributes[0].name, name) then Some(attributes[0])
    else FindName(attributes[1..], name)
  }

  /** The number of an attribute: the vendor in the upper half, by an inclusive or. */
  function Number(value: int, vendor: int): (n: int)
    requires Int32(value)
  {
    if vendor == 0 then value
    else
      OrBelow(ToWord(value), vendor * 0x1_0000 % WORD);
      SignedWord(OrNat(ToWord(value), vendor * 0x1_0000 % WORD))
  }

  lemma OrBelow(a: word, b: word)
    ensures a <= OrNat(a, b) < WORD && b <= OrNat(a, b)
  {
    Powers();
    OrNatBounds(a, b, 32);
  }

  lemma {:induction false} PowSum(a: nat, b: nat)
    ensures Pow2(a + b) == Pow2(a) * Pow2(b)
  {
    if b > 0 {
      PowSum(a, b - 1);
      assert a + b - 1 == a + (b - 1);
      assert Pow2(a) * Pow2(b) == 2 * (Pow2(a) * Pow2(b - 1));
    }
  }

  lemma Powers()
    ensures Pow2(16) == 0x1_0000 && Pow2(32) == WORD
  {
    PowSum(8, 8);
    assert Pow2(8) == 256;
    PowSum(16, 16);
  }

  lemma {:induction false} OrNothing(a: nat)
    ensures OrNat(a, 0) == a && OrNat(0, a) == a
  {
    if a > 0 {
      OrNothing(a / 2);
    }
  }

  lemma WordAndBack(x: int)
    requires Int32(x)
    ensures SignedWord(ToWord(x)) == x
  {
    if x < 0 {
      assert x % WORD == x + WORD;
    }
  }

  /** A vendor whose low 16 bits are zero leaves the number as it is ... */
  lemma VendorIsLost(value: int, vendor: int)
    requires Int32(value) && vendor % 0x1_0000 == 0
    ensures Number(value, vendor) == value
  {
    ShiftedVendor(vendor);
    OrNothing(ToWord(value));
    WordAndBack(value);
  }

  /** ... and every other one leads out of the numbers of 16 bits. */
  lemma VendorIsAbove(value: int, vendor: int)
    requires Int32(value) && vendor % 0x1_0000 != 0
    ensures !(0 <= Number(value, vendor) < 0x1_0000)
  {
    var w := vendor * 0x1_0000 % WORD;
    HighHalf(vendor);
    OrBelow(ToWord(value), w);
    SignedAbove(OrNat(ToWord(value), w));
  }

  lemma SignedAbove(w: word)
    requires 0x1_0000 <= w
    ensures !(0 <= SignedWord(w) < 0x1_0000)
  {
  }

  lemma HighHalf(vendor: int)
    requires vendor % 0x1_0000 != 0
    ensures 0x1_0000 <= vendor * 0x1_0000 % WORD
  {
    ShiftedVendor(vendor);
  }

  /** A number of the base range belongs to a vendor only if the vendor's low 16 bits are zero. */
  lemma BaseNumbers(value: int, vendor: int)
    requires Int32(value) && vendor != 0
    ensures 0 <= Number(value, vendor) < 256 <==> vendor % 0x1_0000 == 0 && 0 <= value < 256
  {
    if vendor % 0x1_0000 == 0 {
      VendorIsLost(value, vendor);
    } else {
      VendorIsAbove(value, vendor);
    }
  }

  lemma ShiftedVendor(vendor: int)
    ensures vendor * 0x1_0000 % WORD == vendor % 0x1_0000 * 0x1_0000
  {
    var q, r := vendor / 0x1_0000, vendor % 0x1_0000;
    assert vendor * 0x1_0000 == q * WORD + r * 0x1_0000;
    assert 0 <= r * 0x1_0000 < WORD;
  }

  /** Names are compared without regard to the case of letters. */
  lemma SameLetter(c: char, d: char)
    ensures Lower(c) == Lower(d)
            <==> || c == d
                 || ('A' <= c <= 'Z' && c as int + 32 == d as int)
                 || ('A' <= d <= 'Z' && d as int + 32 == c as int)
  {
  }

  lemma SameNameExactly(a: string, b: string)
    ensures SameName(a, b)
            <==> |a| == |b| && forall i :: 0 <= i < |a| ==>
                   || a[i] == b[i]
                   || ('A' <= a[i] <= 'Z' && a[i] as int + 32 == b[i] as int)
                   || ('A' <= b[i] <= 'Z' && b[i] as int + 32 == a[i] as int)
  {
    forall i | 0 <= i < |a| && i < |b| ensures Lower(a[i]) == Lower(b[i])
                                               <==> || a[i] == b[i]
                                                    || ('A' <= a[i] <= 'Z' && a[i] as int + 32 == b[i] as int)
                                                    || ('A' <= b[i] <= 'Z' && b[i] as int + 32 == a[i] as int) {
      SameLetter(a[i], b[i]);
    }
  }

  // ---------------------------------------------------------------- the dictionary

  datatype Command = Add(name: string, vendor: int, typ: int, value: int, flags: int) | Free

  /** List and highest number; the highest number outlives the list. */
  datatype Book = Book(attributes: seq<Attribute>, max: int)

  /** What adding an attribute makes of the list; -1 asks for a new number, unless the name is known. */
  function Added(b: Book, name: string, vendor: int, typ: int, value: int, flags: int): (r: Book)
    requires Int32(b.max) && b.max < 0x7fff_ffff && Int32(value)
  {
    if |name| > MAX_NAME || (value == -1 && FindName(b.attributes, name).Some?) then b
    else
      var v := if value == -1 then b.max + 1 else value;
      var max := if value == -1 || (vendor == 0 && value > b.max) then v else b.max;
      Book([Attribute(name, Number(v, vendor), vendor, typ, flags)] + b.attributes, max)
  }

  /** Names of more than 39 characters are refused, and a new number only where the name is new; otherwise the
      attribute stands in front. */
  lemma AddedExactly(b: Book, name: string, vendor: int, typ: int, value: int, flags: int)
    requires Int32(b.max) && b.max < 0x7fff_ffff && Int32(value)
    ensures var r := Added(b, name, vendor, typ, value, flags);
            if |name| >= 40 || (value == -1 && exists a :: a in b.attributes && SameName(a.name, name)) then r == b
            else
              && |r.attributes| == |b.attributes| + 1 && r.attributes[1..] == b.attributes
              && r.attributes[0].name == name && r.attributes[0].vendor == vendor
              && r.attributes[0].typ == typ && r.attributes[0].flags == flags
              && r.attributes[0].number == Number(if value == -1 then b.max + 1 else value, vendor)
              && r.max == if value == -1 then b.max + 1 else if vendor == 0 && value > b.max then value else b.max
  {
    NamedExactly(b.attributes, name);
  }

  lemma {:induction false} NamedExactly(attributes: seq<Attribute>, name: string)
    ensures FindName(attributes, name).Some? <==> exists a :: a in attributes && SameName(a.name, name)
  {
    if attributes != [] {
      NamedExactly(attributes[1..], name);
      assert attributes == [attributes[0]] + attributes[1..];
    }
  }

  /** No attribute without a vendor is above the highest number, and none of a vendor is in the range of
      those that have none. */
  predicate Sound(b: Book)
  {
    && 0 <= b.max < 0x8000_0000
    && forall i :: 0 <= i < |b.attributes| ==> Placed(b.attributes[i], b.max)
  }

  predicate Placed(a: Attribute, max: int)
  {
    if a.vendor == 0 then a.number <= max else 0 < a.vendor < 0x1_0000 ==> !(0 <= a.number < 0x1_0000)
  }

  lemma SoundAfter(b: Book, name: string, vendor: int, typ: int, value: int, flags: int)
    requires Sound(b) && b.max < 0x7fff_ffff && Int32(value)
    ensures Sound(Added(b, name, vendor, typ, value, flags))
  {
    if 0 < vendor < 0x1_0000 {
      VendorIsAbove(value, vendor);
      VendorIsAbove(b.max + 1, vendor);
    }
  }

  class Dict {
    var attributes: seq<Attribute>
    const base: array<Option<Attribute>>
    var max: int

    /** The cache says what a scan of the list says. */
    ghost predicate Agrees()
      reads this, base
    {
      base.Length == 256 && forall v :: 0 <= v < 256 ==> base[v] == Find(attributes, v)
    }

    ghost predicate Valid()
      reads this, base
    {
      Agrees() && Sound(Book(attributes, max))
    }

    constructor ()
      ensures Valid() && attributes == [] && max == 0 && fresh(base)
    {
      attributes, max := [], 0;
      base := new Option<Attribute>[256](_ => None);
    }

    method Free()
      requires Valid()
      modifies this, base
      ensures Valid() && attributes == [] && max == old(max)
    {
      attributes := [];
      for i := 0 to 256
        modifies base
        invariant forall j :: 0 <= j < i ==> base[j] == None
      {
        base[i] := None;
      }
    }

    method ByName(name: string) returns (r: Option<Attribute>)
      ensures r == FindName(attributes, name)
    {
      var i := 0;
      while i < |attributes|
        invariant i <= |attributes| && FindName(attributes, name) == FindName(attributes[i..], name)
      {
        if SameName(attributes[i].name, name) {
          return Some(attributes[i]);
        }
        assert attributes[i..][1..] == attributes[i + 1..];
        i := i + 1;
      }
      r := None;
    }

    /** Looking a number up, through the cache where there is one, is the scan of the list. */
    method ByValue(value: int) returns (r: Option<Attribute>)
      requires Agrees()
      ensures r == Find(attributes, value)
    {
      if 0 <= value < 256 {
        return base[value];
      }
      var i := 0;
      while i < |attributes|
        invariant i <= |attributes| && Find(attributes, value) == Find(attributes[i..], value)
      {
        if attributes[i].number == value {
          return Some(attributes[i]);
        }
        assert attributes[i..][1..] == attributes[i + 1..];
        i := i + 1;
      }
      r := None;
    }

    /** Adding an attribute.  The cache goes on agreeing with the list exactly when the attribute has no
        vendor, or no base number, or repeats what was there. */
    method AddAttribute(name: string, vendor: int, typ: int, value: int, flags: int) returns (ok: bool)
      requires Valid() && Int32(value) && max < 0x7fff_ffff
      modifies this, base
      ensures Book(attributes, max) == Added(Book(old(attributes), old(max)), name, vendor, typ, value, flags)
      ensures ok <==> |name| <= MAX_NAME
      ensures Sound(Book(attributes, max))
      ensures attributes == old(attributes) ==> Agrees()
      ensures attributes != old(attributes) ==>
                && (forall v :: 0 <= v < 256 ==> base[v] == SlotAfter(old(attributes), attributes[0], v))
                && (Agrees() <==> CacheFollows(old(attributes), attributes[0]))
    {
      if |name| > MAX_NAME {
        return false;
      }
      var v := value;
      if value == -1 {
        var known := ByName(name);
        if known.Some? {
          return true;
        }
        max := max + 1;
        v := max;
      } else if vendor == 0 {
        if value > max {
          max := value;
        }
      }
      var a := Attribute(name, Number(v, vendor), vendor, typ, flags);
      if vendor == 0 {
        if 0 <= a.number < 256 {
          base[a.number] := Some(a);
        }
      }
      AgreesExactly(attributes, a);
      SoundAfter(Book(attributes, old(max)), name, vendor, typ, value, flags);
      attributes := [a] + attributes;
      ok := true;
    }
  }

  /** The slot of the cache for `v` once `a` has been added. */
  function SlotAfter(attributes: seq<Attribute>, a: Attribute, v: int): (r: Option<Attribute>)
  {
    if a.vendor == 0 && v == a.number then Some(a) else Find(attributes, v)
  }

  predicate CacheFollows(attributes: seq<Attribute>, a: Attribute)
  {
    a.vendor == 0 || !(0 <= a.number < 256) || Find(attributes, a.number) == Some(a)
  }

  /** For vendors of any size: when the cache still agrees. */
  lemma AgreesExactly(attributes: seq<Attribute>, a: Attribute)
    ensures (forall v :: 0 <= v < 256 ==> SlotAfter(attributes, a, v) == Find([a] + attributes, v))
            <==> CacheFollows(attributes, a)
  {
    assert ([a] + attributes)[1..] == attributes;
    if !CacheFollows(attributes, a) {
      assert SlotAfter(attributes, a, a.number) != Find([a] + attributes, a.number);
    }
  }

  /** Vendor 65536 is the first one whose attributes the cache misses. */
  lemma CacheMisses()
    ensures Number(7, 0x1_0000) == 7
    ensures var a := Attribute("x", 7, 0x1_0000, 0, 0);
            SlotAfter([], a, 7) == None && Find([a], 7) == Some(a)
  {
    OrNothing(7);
  }

  // ---------------------------------------------------------------- runs

  /** Vendors are 16-bit numbers. */
  predicate Legal(c: Command)
  {
    c.Add? ==> 0 <= c.vendor < 0x1_0000 && Int32(c.value)
  }

  function Applied(b: Book, c: Command): (r: Book)
    requires Int32(b.max) && b.max < 0x7fff_ffff && Legal(c)
  {
    match c
    case Free => Book([], b.max)
    case Add(name, vendor, typ, value, flags) => Added(b, name, vendor, typ, value, flags)
  }

  /** A run on the list alone, as long as the numbers last. */
  predicate LegalRun(b: Book, commands: seq<Command>)
    decreases |commands|
  {
    || commands == []
    || (&& Int32(b.max) && b.max < 0x7fff_ffff && Legal(commands[0])
        && LegalRun(Applied(b, commands[0]), commands[1..]))
  }

  function AppliedAll(b: Book, commands: seq<Command>): (r: Book)
    requires LegalRun(b, commands)
    decreases |commands|
  {
    if commands == [] then b else AppliedAll(Applied(b, commands[0]), commands[1..])
  }

  predicate ShortVendors(attributes: seq<Attribute>)
  {
    forall i :: 0 <= i < |attributes| ==> 0 <= attributes[i].vendor < 0x1_0000
  }

  lemma {:induction false} SoundRun(b: Book, commands: seq<Command>)
    requires Sound(b) && LegalRun(b, commands)
    ensures Sound(AppliedAll(b, commands))
    ensures ShortVendors(b.attributes) ==> ShortVendors(AppliedAll(b, commands).attributes)
    decreases |commands|
  {
    if commands != [] {
      if commands[0].Add? {
        var c := commands[0];
        SoundAfter(b, c.name, c.vendor, c.typ, c.value, c.flags);
      }
      SoundRun(Applied(b, commands[0]), commands[1..]);
    }
  }

  /** After every run of additions and resets the list is what the run makes of it, and the cache
      agrees with it for every number. */
  method Run(d: Dict, commands: seq<Command>)
    requires d.Valid() && LegalRun(Book(d.attributes, d.max), commands)
    modifies d, d.base
    ensures d.Valid() && Book(d.attributes, d.max) == AppliedAll(Book(old(d.attributes), old(d.max)), commands)
    decreases |commands|
  {
    if commands != [] {
      match commands[0] {
        case Free =>
          d.Free();
        case Add(name, vendor, typ, value, flags) =>
          if vendor != 0 {
            BaseNumbers(value, vendor);
            BaseNumbers(d.max + 1, vendor);
          }
          var _ := d.AddAttribute(name, vendor, typ, value, flags);
      }
      Run(d, commands[1..]);
    }
  }

  // ---------------------------------------------------------------- new numbers

  /** The command asks for a new number, for an attribute without a vendor, and gets one. */
  predicate Allocates(b: Book, c: Command)
  {
    c.Add? && c.vendor == 0 && c.value == -1 && |c.name| <= MAX_NAME && FindName(b.attributes, c.name).None?
  }

  /** After every run, resets included, a new number is above the number of every attribute on the list
      that has no vendor. */
  lemma NewNumberIsFree(b: Book, run: seq<Command>, c: Command)
    requires Sound(b) && LegalRun(b, run) && LegalRun(AppliedAll(b, run), [c]) && Allocates(AppliedAll(b, run), c)
    ensures var before := AppliedAll(b, run).attributes;
            var attributes := Applied(AppliedAll(b, run), c).attributes;
            && attributes[1..] == before && attributes[0].name == c.name
            && forall i :: 0 <= i < |before| && before[i].vendor == 0 ==> before[i].number < attributes[0].number
  {
    SoundRun(b, run);
  }

  /** The numbers a run hands out. */
  function Allocated(b: Book, commands: seq<Command>): (r: seq<int>)
    requires LegalRun(b, commands)
    decreases |commands|
  {
    if commands == [] then []
    else
      var more := Allocated(Applied(b, commands[0]), commands[1..]);
      if Allocates(b, commands[0]) then [Applied(b, commands[0]).attributes[0].number] + more else more
  }

  /** They rise strictly, so that no number is handed out twice, not even across a reset. */
  lemma {:induction false} AllocatedRise(b: Book, commands: seq<Command>)
    requires LegalRun(b, commands)
    ensures forall i :: 0 <= i < |Allocated(b, commands)| ==> b.max < Allocated(b, commands)[i]
    ensures forall i, j :: 0 <= i < j < |Allocated(b, commands)| ==>
              Allocated(b, commands)[i] < Allocated(b, commands)[j]
    decreases |commands|
  {
    if commands != [] {
      AllocatedRise(Applied(b, commands[0]), commands[1..]);
    }
  }

  /** No attribute on the list has the number that comes next. */
  predicate NextIsUnused(commands: seq<Command>)
    requires LegalRun(Book([], 0), commands)
  {
    var b := AppliedAll(Book([], 0), commands);
    forall i :: 0 <= i < |b.attributes| ==> b.attributes[i].number != b.max + 1
  }

  predicate RunTo(commands: seq<Command>, max: int)
  {
    LegalRun(Book([], 0), commands) && AppliedAll(Book([], 0), commands).max == max
  }

  /** With the attributes of vendors counted too, a new number conflicts with none exactly as long as it
      stays below 65536, where the numbers of vendor 1 begin. */
  lemma NextIsUnusedExactly(max: int)
    requires 0 <= max < 0x7fff_ffff
    ensures (forall commands :: RunTo(commands, max) ==> NextIsUnused(commands)) <==> max + 1 < 0x1_0000
  {
    if max + 1 < 0x1_0000 {
      forall commands | RunTo(commands, max) ensures NextIsUnused(commands) {
        SoundRun(Book([], 0), commands);
      }
    } else {
      Conflict(max);
    }
  }

  /** The run that leads to a conflict: an attribute with the number `max`, and the vendor's attribute
      whose number is one more. */
  function Conflicting(max: int): (commands: seq<Command>)
    requires 0xffff <= max < 0x7fff_ffff
  {
    [Add("a", 0, 0, max, 0), Add("b", (max + 1) / 0x1_0000, 0, (max + 1) % 0x1_0000, 0)]
  }

  lemma Conflict(max: int)
    requires 0xffff <= max < 0x7fff_ffff
    ensures RunTo(Conflicting(max), max) && !NextIsUnused(Conflicting(max))
  {
    var vendor, value := (max + 1) / 0x1_0000, (max + 1) % 0x1_0000;
    VendorNumber(value, vendor);
    var commands := Conflicting(max);
    var one := Applied(Book([], 0), commands[0]);
    assert one == Book([Attribute("a", max, 0, 0, 0)], max);
    var two := Applied(one, commands[1]);
    assert two.max == max && two.attributes[0].number == max + 1;
    assert commands[1..] == [commands[1]] && commands[1..][1..] == [];
    assert AppliedAll(Book([], 0), commands) == AppliedAll(one, commands[1..]) == two;
  }

  /** The number of a vendor's attribute is the sum of its halves. */
  lemma VendorNumber(value: int, vendor: int)
    requires 0 <= value < 0x1_0000 && 0 < vendor < 0x8000
    ensures Number(value, vendor) == vendor * 0x1_0000 + value
  {
    HalvesJoin(value, vendor);
    Small(value);
    Small(vendor * 0x1_0000);
  }

  lemma Small(x: int)
    requires 0 <= x < WORD
    ensures x % WORD == x
  {
  }

  lemma HalvesJoin(low: nat, high: nat)
    requires low < 0x1_0000
    ensures OrNat(low, high * 0x1_0000) == low + high * 0x1_0000
  {
    Powers();
    OrDisjoint(low, high, 16);
  }

  lemma {:induction false} OrDisjoint(a: nat, h: nat, k: nat)
    requires a < Pow2(k)
    ensures OrNat(a, h * Pow2(k)) == a + h * Pow2(k)
  {
    if k > 0 {
      var p := Pow2(k - 1);
      assert h * Pow2(k) == 2 * (h * p);
      OrDisjoint(a / 2, h, k - 1);
    } else {
      OrNothing(h);
    }
  }
}
