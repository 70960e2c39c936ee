/** What key equality means for the maps of an archive (lib/hashmap-helpers.c). */
module Keys {
  import opened RobinHood

  const HASH_RANGE: nat := 0x1_0000_0000_0000

  /** `metadata_hash` with `metadata_compare`, and `file_hash` with `file_compare`: the hash is the id, and the
      comparator answers 0 for equal ids and also when the left id is the smaller one. */
  function ByNumber<T>(id: T -> nat): Keying<T, nat> {
    Keying(id, (a, b) => if id(a) > id(b) then 1 else 0, id)
  }

  /** Maps keyed by number compare ids correctly exactly when no two different ids in play,
      searched ids included, agree in their low 48 bits. */
  lemma NumbersAreKeys<T>(id: T -> nat, universe: iset<T>)
    ensures ByNumber(id).KeyedOn(universe) <==>
              forall a, b :: a in universe && b in universe ==>
                (id(a) % 0x1_0000_0000_0000 == id(b) % 0x1_0000_0000_0000 ==> id(a) == id(b))
  {
    var ops := ByNumber(id);
    if ops.KeyedOn(universe) {
      forall a, b | a in universe && b in universe && id(a) % HASH_RANGE == id(b) % HASH_RANGE ensures id(a) == id(b) {
        assert ops.Matches(a, b) || ops.Matches(b, a);
      }
    }
  }

  predicate NulFree(s: string) {
    forall i :: 0 <= i < |s| ==> s[i] as int != 0
  }

  /** `strcmp`, each string with a NUL behind it. */
  function Strcmp(a: string, b: string): int
    decreases |a|
  {
    var x, y := if a == [] then 0 else a[0] as int, if b == [] then 0 else b[0] as int;
    if x != y then x - y
    else if a == [] || b == [] then 0
    else Strcmp(a[1..], b[1..])
  }

  /** `strcmp` tells strings apart exactly up to their first NUL. */
  lemma {:induction false} StrcmpZero(a: string, b: string)
    requires NulFree(a) && NulFree(b)
    ensures Strcmp(a, b) == 0 <==> a == b
    decreases |a|
  {
    if a != [] && b != [] && a[0] == b[0] {
      StrcmpZero(a[1..], b[1..]);
      assert a == [a[0]] + a[1..] && b == [b[0]] + b[1..];
    }
  }

  /** `dir_inode_hash` with `dir_inode_compare`; the hash may be any function of the name. */
  function ByName<T>(name: T -> string, hash: string -> nat): Keying<T, string> {
    Keying(x => hash(name(x)), (a, b) => Strcmp(name(a), name(b)), name)
  }

  /** Maps keyed by name need no such condition, whatever the hash does. */
  lemma NamesAreKeys<T(!new)>(name: T -> string, hash: string -> nat, universe: iset<T>)
    requires forall x :: x in universe ==> NulFree(name(x))
    ensures ByName(name, hash).KeyedOn(universe)
  {
    forall a, b | a in universe && b in universe ensures ByName(name, hash).Matches(a, b) <==> name(a) == name(b) {
      StrcmpZero(name(a), name(b));
    }
  }
}
