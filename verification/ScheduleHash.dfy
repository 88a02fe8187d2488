/** The `~` of a schedule, which stands for a value that is derived from the job's name. */
module ScheduleHash {
  import opened Wrappers
  import opened Types
  import opened Keys
  import opened Strings

  const HASH_SYMBOL: char := '~'
  const DESCRIPTOR: string := "@"
  const ZONE: string := "TZ="
  const CRON_ZONE: string := "CRON_TZ="

  /** The sum of the name's characters. */
  function NameHash(name: string): nat {
    if name == [] then 0 else name[0] as int + NameHash(name[1..])
  }

  predicate IsDescriptor(part: string) {
    HasPrefix(part, DESCRIPTOR)
  }

  predicate IsZone(part: string) {
    HasPrefix(part, ZONE) || HasPrefix(part, CRON_ZONE)
  }

  /** The value for a field: seconds, minutes, hours, day of the month, month and day of the week, in this order. */
  function PartHash(hash: nat, index: nat): (value: nat)
    ensures index == 2 ==> value < 24
    ensures index == 3 ==> 1 <= value <= 28
    ensures index == 4 ==> 1 <= value <= 12
    ensures index == 5 ==> value < 7
    ensures value < 60
  {
    match index
    case 2 => hash % 24
    case 3 => hash % 28 + 1
    case 4 => hash % 12 + 1
    case 5 => hash % 7
    case _ => hash % 60
  }

  function HashedPart(part: string, hash: nat, index: nat): string {
    ReplaceAll(part, HASH_SYMBOL, Itoa(PartHash(hash, index)))
  }

  /** The parts from field `index` on, or nothing when one of them is a descriptor. A part that names a zone is no
      field. */
  function HashedParts(parts: seq<string>, hash: nat, index: nat): Option<seq<string>> {
    if parts == [] then Some([])
    else if IsDescriptor(parts[0]) then None
    else
      match HashedParts(parts[1..], hash, if IsZone(parts[0]) then index else index + 1)
      case None => None
      case Some(rest) => Some([if IsZone(parts[0]) then parts[0] else HashedPart(parts[0], hash, index)] + rest)
  }

  /** The schedule with every `~` replaced. A schedule with a descriptor stays as it is. */
  function Hashed(name: string, spec: string): string {
    if HASH_SYMBOL !in spec then spec
    else
      match HashedParts(Split(spec, ' '), NameHash(name), 0)
      case None => spec
      case Some(parts) => if parts == [] then spec else Join(parts, ' ')
  }

  // Parts that are done, in front of what becomes of the others.
  function Onto(front: seq<string>, rest: Option<seq<string>>): Option<seq<string>> {
    if rest.None? then None else Some(front + rest.value)
  }

  lemma OntoNext(front: seq<string>, parts: seq<string>, hash: nat, index: nat)
    requires parts != [] && !IsDescriptor(parts[0])
    ensures var one := if IsZone(parts[0]) then parts[0] else HashedPart(parts[0], hash, index);
            var rest := HashedParts(parts[1..], hash, if IsZone(parts[0]) then index else index + 1);
            Onto(front, HashedParts(parts, hash, index)) == Onto(front + [one], rest)
  {
    hide IsDescriptor, IsZone, HashedPart;
    var one := if IsZone(parts[0]) then parts[0] else HashedPart(parts[0], hash, index);
    var rest := HashedParts(parts[1..], hash, if IsZone(parts[0]) then index else index + 1);
    if rest.Some? {
      assert front + ([one] + rest.value) == front + [one] + rest.value;
    }
  }

  lemma OntoNothing(rest: Option<seq<string>>)
    ensures Onto([], rest) == rest
  {
    if rest.Some? { assert [] + rest.value == rest.value; }
  }

  /** Replaces part after part in place. */
  method ComputeHashed(name: string, spec: string) returns (r: string)
    ensures r == Hashed(name, spec)
  {
    hide Split, IsDescriptor, IsZone, HashedParts, ReplaceAll, PartHash;
    if HASH_SYMBOL !in spec {
      return spec;
    }
    var hash := NameHash(name);
    var given := Split(spec, ' ');
    var parts := given;
    var partIndex := 0;
    assert given[0..] == given;
    OntoNothing(HashedParts(given, hash, partIndex));
    for i := 0 to |given|
      invariant 0 <= partIndex && |parts| == |given| && parts[i..] == given[i..]
      invariant HashedParts(given, hash, 0) == Onto(parts[..i], HashedParts(given[i..], hash, partIndex))
    {
      var part := parts[i];
      assert part == given[i] by { assert parts[i..][0] == given[i..][0]; }
      assert parts[i + 1..] == given[i + 1..] by { assert parts[i..][1..] == given[i..][1..]; }
      assert given[i..][0] == given[i] && given[i..][1..] == given[i + 1..];
      if HasPrefix(part, DESCRIPTOR) {
        DescriptorEnds(given[i..], hash, partIndex);
        return spec;
      }
      IsNoDescriptor(part);
      OntoNext(parts[..i], given[i..], hash, partIndex);
      ZoneByPrefix(part);
      if HasPrefix(part, ZONE) || HasPrefix(part, CRON_ZONE) {
        assert parts[..i + 1] == parts[..i] + [part];
        continue;
      }
      ghost var before := parts[..i];
      NothingToReplace(part, hash, partIndex);
      if HASH_SYMBOL in part {
        var partHash := PartHash(hash, partIndex);
        parts := parts[i := ReplaceAll(part, HASH_SYMBOL, Itoa(partHash))];
      }
      assert parts[..i + 1] == before + [HashedPart(part, hash, partIndex)];
      partIndex := partIndex + 1;
    }
    NoPartsLeft(hash, partIndex);
    assert given[|given|..] == [] && parts[..|given|] + [] == parts;
    return Join(parts, ' ');
  }

  lemma NoPartsLeft(hash: nat, index: nat)
    ensures HashedParts([], hash, index) == Some([])
  {
  }

  lemma DescriptorEnds(parts: seq<string>, hash: nat, index: nat)
    requires parts != [] && HasPrefix(parts[0], DESCRIPTOR)
    ensures HashedParts(parts, hash, index).None?
  {
  }

  lemma IsNoDescriptor(part: string)
    requires !HasPrefix(part, DESCRIPTOR)
    ensures !IsDescriptor(part)
  {
  }

  lemma ZoneByPrefix(part: string)
    ensures IsZone(part) <==> HasPrefix(part, ZONE) || HasPrefix(part, CRON_ZONE)
  {
  }

  lemma NothingToReplace(part: string, hash: nat, index: nat)
    ensures HASH_SYMBOL !in part ==> HashedPart(part, hash, index) == part
  {
    ReplacedIsGone(part, HASH_SYMBOL, Itoa(PartHash(hash, index)), HASH_SYMBOL);
  }

  // ---- What a hashed schedule is ----

  // A part after hashing: a zone, or a field without the symbol.
  predicate Settled(part: string) {
    !IsDescriptor(part) && ' ' !in part && (IsZone(part) || HASH_SYMBOL !in part)
  }

  lemma DigitsOnly(value: nat)
    ensures Itoa(value) != [] && forall x | x in Itoa(value) :: '0' <= x <= '9'
  {
  }

  lemma HashedPartIsSettled(part: string, hash: nat, index: nat)
    requires !IsDescriptor(part) && !IsZone(part) && ' ' !in part
    ensures Settled(HashedPart(part, hash, index)) && !IsZone(HashedPart(part, hash, index))
  {
    hide PartHash, Itoa, ReplaceAll;
    var digits := Itoa(PartHash(hash, index));
    DigitsOnly(PartHash(hash, index));
    ReplacedIsGone(part, HASH_SYMBOL, digits, HASH_SYMBOL);
    ReplacedIsGone(part, HASH_SYMBOL, digits, ' ');
    ReplaceKeepsPrefix(part, HASH_SYMBOL, digits, DESCRIPTOR);
    ReplaceKeepsPrefix(part, HASH_SYMBOL, digits, ZONE);
    ReplaceKeepsPrefix(part, HASH_SYMBOL, digits, CRON_ZONE);
  }

  /** Hashing keeps the number of parts, leaves zones alone, and settles every field. */
  lemma {:induction false} HashedPartsSettled(parts: seq<string>, hash: nat, index: nat)
    requires HashedParts(parts, hash, index).Some? && forall i | 0 <= i < |parts| :: ' ' !in parts[i]
    ensures var r := HashedParts(parts, hash, index).value;
            |r| == |parts| && forall i | 0 <= i < |r| :: Settled(r[i]) && IsZone(r[i]) == IsZone(parts[i])
    decreases |parts|
  {
    if parts != [] {
      if !IsZone(parts[0]) { HashedPartIsSettled(parts[0], hash, index); }
      hide HashedPart, IsDescriptor, IsZone;
      HashedPartsSettled(parts[1..], hash, if IsZone(parts[0]) then index else index + 1);
    }
  }

  lemma {:induction false} SettledPartsStay(parts: seq<string>, hash: nat, index: nat)
    requires forall i | 0 <= i < |parts| :: Settled(parts[i])
    ensures HashedParts(parts, hash, index) == Some(parts)
    decreases |parts|
  {
    if parts != [] {
      NothingToReplace(parts[0], hash, index);
      assert Settled(parts[0]);
      hide HashedPart, IsDescriptor, IsZone;
      SettledPartsStay(parts[1..], hash, if IsZone(parts[0]) then index else index + 1);
      assert parts == [parts[0]] + parts[1..];
    }
  }

  /** Hashing twice is hashing once. */
  lemma HashedTwice(name: string, spec: string)
    ensures Hashed(name, Hashed(name, spec)) == Hashed(name, spec)
  {
    hide Split, Join, HashedParts, Settled;
    var hash, parts := NameHash(name), Split(spec, ' ');
    SplitJoins(spec, ' ');
    var hashed := HashedParts(parts, hash, 0);
    if HASH_SYMBOL in spec && hashed.Some? {
      HashedPartsSettled(parts, hash, 0);
      SettledHaveNoSpace(hashed.value);
      JoinSplits(hashed.value, ' ');
      SettledPartsStay(hashed.value, hash, 0);
    }
  }

  // ---- The values of the fields ----

  // How many values the field may have, and the least of them.
  const FIELD_SIZES: seq<nat> := [60, 60, 24, 28, 12, 7]
  const FIELD_STARTS: seq<nat> := [0, 0, 0, 1, 1, 0]

  /** A name's hash is that of its parts together, and of one character it is the code of the character. */
  lemma {:induction false} HashOfParts(a: string, b: string)
    ensures NameHash(a + b) == NameHash(a) + NameHash(b)
    ensures forall c: char :: NameHash([c]) == c as nat
  {
    forall c: char ensures NameHash([c]) == c as nat {
      assert [c][1..] == [];
    }
    if a == [] {
      assert a + b == b;
    } else {
      assert (a + b)[1..] == a[1..] + b;
      HashOfParts(a[1..], b);
    }
  }

  /** The number of the field that a part is: how many of the parts before it name no zone. */
  function FieldOf(parts: seq<string>, i: nat): nat
    requires i <= |parts|
  {
    if i == 0 then 0
    else FieldOf(parts, i - 1) + if "TZ=" <= parts[i - 1] || "CRON_TZ=" <= parts[i - 1] then 0 else 1
  }

  lemma {:induction false} FieldOfRest(parts: seq<string>, i: nat)
    requires parts != [] && i <= |parts[1..]|
    ensures FieldOf(parts, i + 1) == (if IsZone(parts[0]) then 0 else 1) + FieldOf(parts[1..], i)
  {
    if i > 0 {
      FieldOfRest(parts, i - 1);
      assert parts[i] == parts[1..][i - 1];
    } else {
      assert FieldOf(parts, 1) == FieldOf(parts, 0) + if IsZone(parts[0]) then 0 else 1;
    }
  }

  // What becomes of a field.
  function FieldValue(hash: nat, field: nat): nat {
    if field < 6 then hash % FIELD_SIZES[field] + FIELD_STARTS[field] else hash % 60
  }

  lemma PartHashOfField(hash: nat, field: nat)
    ensures PartHash(hash, field) == FieldValue(hash, field)
  {
    assert field < 6 ==> field == 0 || field == 1 || field == 2 || field == 3 || field == 4 || field == 5;
    assert FIELD_SIZES[0] == 60 && FIELD_SIZES[1] == 60 && FIELD_SIZES[2] == 24;
    assert FIELD_SIZES[3] == 28 && FIELD_SIZES[4] == 12 && FIELD_SIZES[5] == 7;
    assert FIELD_STARTS[0] == 0 && FIELD_STARTS[1] == 0 && FIELD_STARTS[2] == 0;
    assert FIELD_STARTS[3] == 1 && FIELD_STARTS[4] == 1 && FIELD_STARTS[5] == 0;
  }

  lemma {:induction false} HashedPartAt(parts: seq<string>, hash: nat, index: nat, i: nat)
    requires HashedParts(parts, hash, index).Some? && i < |parts|
    ensures var r := HashedParts(parts, hash, index).value;
            && |r| == |parts|
            && r[i] == if "TZ=" <= parts[i] || "CRON_TZ=" <= parts[i] then parts[i]
                       else ReplaceAll(parts[i], '~', Itoa(FieldValue(hash, index + FieldOf(parts, i))))
    decreases |parts|
  {
    hide FieldValue, PartHash, Itoa, ReplaceAll, IsDescriptor;
    var next := if IsZone(parts[0]) then index else index + 1;
    PartHashOfField(hash, index);
    if i > 0 {
      FieldOfRest(parts, i - 1);
      HashedPartAt(parts[1..], hash, next, i - 1);
      assert parts[1..][i - 1] == parts[i];
    } else if |parts| > 1 {
      HashedPartAt(parts[1..], hash, next, 0);
    }
  }

  lemma {:induction false} NothingHashedIff(parts: seq<string>, hash: nat, index: nat)
    ensures HashedParts(parts, hash, index).None? <==> exists i :: 0 <= i < |parts| && "@" <= parts[i]
    decreases |parts|
  {
    hide HashedPart, IsZone;
    if parts != [] {
      NothingHashedIff(parts[1..], hash, if IsZone(parts[0]) then index else index + 1);
      if exists i :: 0 <= i < |parts[1..]| && "@" <= parts[1..][i] {
        var i :| 0 <= i < |parts[1..]| && "@" <= parts[1..][i];
        assert parts[i + 1] == parts[1..][i];
      }
      if exists i :: 0 <= i < |parts| && "@" <= parts[i] {
        var i :| 0 <= i < |parts| && "@" <= parts[i];
        assert i > 0 ==> parts[1..][i - 1] == parts[i];
      }
    }
  }

  /** The hashed schedule, part by part: zones stay, and in every field each symbol becomes the numeral of the value
      for this field. A schedule with a descriptor stays as it is. */
  lemma HashedByParts(name: string, spec: string, i: nat)
    requires i < |Split(spec, ' ')|
    ensures var parts := Split(spec, ' ');
            if exists k :: 0 <= k < |parts| && "@" <= parts[k] then Hashed(name, spec) == spec
            else
              && |Split(Hashed(name, spec), ' ')| == |parts|
              && Split(Hashed(name, spec), ' ')[i] ==
                 if "TZ=" <= parts[i] || "CRON_TZ=" <= parts[i] then parts[i]
                 else ReplaceAll(parts[i], '~', Itoa(FieldValue(NameHash(name), FieldOf(parts, i))))
  {
    hide Split, Join, HashedParts, FieldValue, FieldOf, Itoa, ReplaceAll;
    var hash, parts := NameHash(name), Split(spec, ' ');
    SplitJoins(spec, ' ');
    NothingHashedIff(parts, hash, 0);
    var hashed := HashedParts(parts, hash, 0);
    if hashed.Some? {
      HashedPartAt(parts, hash, 0, i);
      if HASH_SYMBOL in spec {
        HashedPartsSettled(parts, hash, 0);
        SettledHaveNoSpace(hashed.value);
        JoinSplits(hashed.value, ' ');
      } else {
        PartsWithoutSymbol(spec, i);
        ReplacedIsGone(parts[i], '~', Itoa(FieldValue(hash, FieldOf(parts, i))), '~');
      }
    }
  }

  lemma SettledHaveNoSpace(parts: seq<string>)
    requires forall i | 0 <= i < |parts| :: Settled(parts[i])
    ensures forall i | 0 <= i < |parts| :: ' ' !in parts[i]
  {
    forall i | 0 <= i < |parts| ensures ' ' !in parts[i] {
      assert Settled(parts[i]);
    }
  }

  /** The symbol is left in a hashed schedule only by a descriptor, or inside a part that names a zone. */
  lemma SymbolIsGone(name: string, spec: string, i: nat)
    requires HashedParts(Split(spec, ' '), NameHash(name), 0).Some?
    requires i < |Split(Hashed(name, spec), ' ')| && HASH_SYMBOL in Split(Hashed(name, spec), ' ')[i]
    ensures IsZone(Split(Hashed(name, spec), ' ')[i])
  {
    hide Split, Join, HashedParts, IsDescriptor, IsZone, ReplaceAll;
    var hash, parts := NameHash(name), Split(spec, ' ');
    SplitJoins(spec, ' ');
    HashedPartsSettled(parts, hash, 0);
    var r := HashedParts(parts, hash, 0).value;
    SettledHaveNoSpace(r);
    JoinSplits(r, ' ');
    if HASH_SYMBOL !in spec {
      PartsWithoutSymbol(spec, i);
    }
  }

  lemma {:induction false} InJoin(parts: seq<string>, c: char, i: nat, x: char)
    requires i < |parts| && x in parts[i]
    ensures x in Join(parts, c)
  {
    if |parts| > 1 && i > 0 {
      InJoin(parts[1..], c, i - 1, x);
    }
  }

  lemma PartsWithoutSymbol(spec: string, i: nat)
    requires HASH_SYMBOL !in spec && i < |Split(spec, ' ')|
    ensures HASH_SYMBOL !in Split(spec, ' ')[i]
  {
    hide Split, Join;
    SplitJoins(spec, ' ');
    if HASH_SYMBOL in Split(spec, ' ')[i] {
      InJoin(Split(spec, ' '), ' ', i, HASH_SYMBOL);
      assert false;
    }
  }
}
