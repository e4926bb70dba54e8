/** Header fields as the HPACK code sees them, and the static table both sides share. */
module Headers {

  type Byte = b: int | 0 <= b < 256
  type Bytes = seq<Byte>

  datatype Option<+T> = None | Some(value: T)

  /** A field or pseudo-header: its name bytes, its value bytes, and whether the value is marked sensitive. */
  datatype Header = Header(name: Bytes, value: Bytes, sensitive: bool) {
    /** The size section 4.1 of RFC 7541 charges for an entry. */
    function Len(): (n: nat)
      ensures n >= 32
    {
      32 + |name| + |value|
    }

    /** Equality as the table compares entries: the sensitive mark plays no part in it. */
    predicate Same(other: Header) {
      name == other.name && value == other.value
    }
  }

  /** The mark is lost on the wire. */
  function Unmarked(h: Header): Header {
    h.(sensitive := false)
  }

  /** A static table entry, and whether an entry equal in name and value is sent as a bare index. The
      entries with an empty value never are. */
  datatype StaticEntry = StaticEntry(name: Bytes, value: Bytes)

  type StaticTable = t: seq<StaticEntry> | |t| == STATIC_LEN witness seq(STATIC_LEN, i => StaticEntry([], []))

  const STATIC_LEN: nat := 61

  /** First position (from 1) of an entry equal to `h`, with a value worth matching; 0 if there is none. */
  function FindStaticExact(t: seq<StaticEntry>, h: Header): (n: nat)
    ensures n <= |t|
    ensures n > 0 ==> t[n - 1].value != [] && t[n - 1].name == h.name && t[n - 1].value == h.value
    ensures forall i :: 0 <= i < (if n > 0 then n - 1 else |t|) ==>
      t[i].value == [] || t[i].name != h.name || t[i].value != h.value
  {
    if t == [] then 0
    else
      var n := FindStaticExact(t[..|t| - 1], h);
      if n > 0 then n
      else
        var e := t[|t| - 1];
        if e.value != [] && e.name == h.name && e.value == h.value then |t| else 0
  }

  /** First position (from 1) of an entry named like `h`; 0 if there is none. */
  function FindStaticName(t: seq<StaticEntry>, h: Header): (n: nat)
    ensures n <= |t|
    ensures n > 0 ==> t[n - 1].name == h.name
    ensures forall i :: 0 <= i < (if n > 0 then n - 1 else |t|) ==> t[i].name != h.name
  {
    if t == [] then 0
    else
      var n := FindStaticName(t[..|t| - 1], h);
      if n > 0 then n else if t[|t| - 1].name == h.name then |t| else 0
  }

  /** Where the static table has `h`, and whether it has the value too: the first entry equal to `h`, else the first of
      its name, else none. An entry with an empty value equals nothing. */
  function IndexStatic(t: StaticTable, h: Header): (r: Option<(nat, bool)>)
    ensures r.Some? ==> 1 <= r.value.0 <= STATIC_LEN && t[r.value.0 - 1].name == h.name
    ensures r.Some? && r.value.1 ==>
      && t[r.value.0 - 1].value == h.value != []
      && forall i :: 0 <= i < r.value.0 - 1 ==> t[i].value == [] || t[i].name != h.name || t[i].value != h.value
    ensures !(r.Some? && r.value.1) ==>
      && (forall i :: 0 <= i < |t| ==> t[i].value == [] || t[i].name != h.name || t[i].value != h.value)
      && (forall i :: 0 <= i < (if r.Some? then r.value.0 - 1 else |t|) ==> t[i].name != h.name)
  {
    var exact := FindStaticExact(t, h);
    if exact > 0 then Some((exact, true))
    else
      var named := FindStaticName(t, h);
      if named > 0 then Some((named, false)) else None
  }
}
