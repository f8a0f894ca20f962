module Options {
  datatype Option<+T> = None | Some(value: T)
}

/**
  The string interner: a growing bijection between strings and small ids
  ("spurs").  Interning appends; an id, once given out, keeps its meaning.
 */
module Interning {
  import opened Options

  type Spur = nat

  function IndexOf(strings: seq<string>, s: string): (r: Option<nat>)
    ensures r.Some? ==> r.value < |strings| && strings[r.value] == s
    ensures r.None? ==> s !in strings
  {
    if strings == [] then None
    else if strings[0] == s then Some(0)
    else
      match IndexOf(strings[1..], s)
      case Some(i) => Some(i + 1)
      case None => None
  }

  datatype Interner = Interner(strings: seq<string>) {

    ghost predicate Valid() {
      forall i, j :: 0 <= i < j < |strings| ==> strings[i] != strings[j]
    }

    function Get(s: string): (r: Option<Spur>)
      ensures r.Some? ==> Knows(r.value) && Resolve(r.value) == s
      ensures r.None? ==> forall k :: Knows(k) ==> Resolve(k) != s
    {
      IndexOf(strings, s)
    }

    predicate Knows(k: Spur) { k < |strings| }

    function Resolve(k: Spur): string
      requires Knows(k)
    {
      strings[k]
    }

    function Intern(s: string): Interner {
      if Get(s).Some? then this else Interner(strings + [s])
    }

    /** This interner, later: nothing forgotten, nothing renumbered. */
    ghost predicate GrownFrom(earlier: Interner) {
      earlier.strings <= strings
    }

    lemma InternCorrect(s: string)
      requires Valid()
      ensures Intern(s).Valid() && Intern(s).GrownFrom(this)
      ensures Intern(s).Get(s).Some?
      ensures Get(s).Some? ==> Intern(s) == this
    {
      if Get(s).None? {
        assert Intern(s).strings[|strings|] == s;
      }
    }

    /** In a valid interner a string and its spur determine each other. */
    lemma GetResolve(k: Spur, s: string)
      requires Valid() && Knows(k)
      ensures Resolve(k) == s <==> Get(s) == Some(k)
    {
    }

    lemma GetStable(earlier: Interner, s: string)
      requires Valid() && GrownFrom(earlier)
      ensures earlier.Get(s).Some? ==> Get(s) == earlier.Get(s)
      ensures forall k :: earlier.Knows(k) ==> Knows(k) && Resolve(k) == earlier.Resolve(k)
    {
    }
  }

  const EmptyInterner := Interner([])
}
