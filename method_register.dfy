/** The registry of linear-system solvers (class SLAEMethodRegistry): one
    dictionary, shared by the whole program, from the lower-cased name of a
    solver class to the class, iterated in insertion order. */
module Registry {
  import opened Wrappers

  /** What the registry sees of a class: its __name__, whether it derives
      from SLAESolver, and its display_name attribute when it has one. */
  datatype MethodClass = MethodClass(name: string, isSolver: bool, displayName: Option<string>)

  /** register refuses a class that does not derive from SLAESolver. */
  datatype RegisterError = TypeError

  // ---------------------------------------------------------------------
  // Letter case (ASCII letters; every other character is uncased)

  predicate IsUpper(c: char) { 'A' <= c <= 'Z' }

  predicate IsLower(c: char) { 'a' <= c <= 'z' }

  predicate IsLetter(c: char) { IsUpper(c) || IsLower(c) }

  function LowerChar(c: char): char
  {
    if IsUpper(c) then (c as int + 32) as char else c
  }

  function UpperChar(c: char): char
  {
    if IsLower(c) then (c as int - 32) as char else c
  }

  /** str.lower: every upper-case letter becomes its lower-case partner and
      nothing else changes. */
  function Lower(s: string): (r: string)
    ensures |r| == |s|
    ensures forall i :: 0 <= i < |s| ==> !IsUpper(r[i]) && (IsLetter(r[i]) <==> IsLetter(s[i]))
    ensures forall i :: 0 <= i < |s| ==> UpperChar(r[i]) == UpperChar(s[i])
    ensures forall i :: 0 <= i < |s| && !IsLetter(s[i]) ==> r[i] == s[i]
  {
    seq(|s|, i requires 0 <= i < |s| => LowerChar(s[i]))
  }

  /** A letter starts a word when nothing but a non-letter comes before it. */
  predicate StartsWord(s: string, i: nat)
    requires i < |s|
  {
    IsLetter(s[i]) && (i == 0 || !IsLetter(s[i - 1]))
  }

  /** Character i of the title-cased string. */
  function TitleAt(s: string, i: nat): (c: char)
    requires i < |s|
    ensures IsLetter(c) <==> IsLetter(s[i])
    ensures LowerChar(c) == LowerChar(s[i])
    ensures StartsWord(s, i) ==> IsUpper(c)
    ensures IsLetter(s[i]) && !StartsWord(s, i) ==> IsLower(c)
    ensures !IsLetter(s[i]) ==> c == s[i]
  {
    if !IsLetter(s[i]) then s[i]
    else if StartsWord(s, i) then UpperChar(s[i])
    else LowerChar(s[i])
  }

  /** str.title: the first letter of every run of letters in upper case,
      the other letters in lower case, everything else unchanged. */
  function Title(s: string): (r: string)
    ensures |r| == |s|
    ensures forall i :: 0 <= i < |s| ==> (IsLetter(r[i]) <==> IsLetter(s[i]))
    ensures forall i :: 0 <= i < |s| ==> LowerChar(r[i]) == LowerChar(s[i])
    ensures forall i :: 0 <= i < |s| && StartsWord(s, i) ==> IsUpper(r[i])
    ensures forall i :: 0 <= i < |s| && IsLetter(s[i]) && !StartsWord(s, i) ==> IsLower(r[i])
    ensures forall i :: 0 <= i < |s| && !IsLetter(s[i]) ==> r[i] == s[i]
  {
    seq(|s|, i requires 0 <= i < |s| => TitleAt(s, i))
  }

  /** Lower-casing twice is lower-casing once. */
  lemma LowerIdempotent(s: string)
    ensures Lower(Lower(s)) == Lower(s)
  {
    var l := Lower(s);
    forall i | 0 <= i < |s| ensures Lower(l)[i] == l[i] {
      assert !IsUpper(l[i]);
    }
  }

  /** Two names give the same key exactly when they differ only in the case
      of their letters. */
  lemma SameKeyIffSameLetters(s: string, t: string)
    ensures Lower(s) == Lower(t) <==> |s| == |t| && forall i :: 0 <= i < |s| ==> LowerChar(s[i]) == LowerChar(t[i])
  {
    if |s| == |t| && forall i :: 0 <= i < |s| ==> LowerChar(s[i]) == LowerChar(t[i]) {
      assert forall i :: 0 <= i < |s| ==> Lower(s)[i] == Lower(t)[i];
    }
    if Lower(s) == Lower(t) {
      assert forall i :: 0 <= i < |s| ==> Lower(s)[i] == LowerChar(s[i]);
    }
  }

  /** Title-casing a key ignores the case the key was written in; in
      particular the title of a registry key is the title of the class
      name it came from. */
  lemma TitleIgnoresCase(s: string)
    ensures Title(Lower(s)) == Title(s)
  {
    var l := Lower(s);
    forall i | 0 <= i < |s| ensures Title(l)[i] == Title(s)[i] {
      assert IsLetter(l[i]) <==> IsLetter(s[i]);
      assert i > 0 ==> (IsLetter(l[i - 1]) <==> IsLetter(s[i - 1]));
    }
  }

  /** Title-casing twice is title-casing once. */
  lemma TitleIdempotent(s: string)
    ensures Title(Title(s)) == Title(s)
  {
    var t := Title(s);
    forall i | 0 <= i < |s| ensures Title(t)[i] == t[i] {
      assert IsLetter(t[i]) <==> IsLetter(s[i]);
      assert i > 0 ==> (IsLetter(t[i - 1]) <==> IsLetter(s[i - 1]));
    }
  }

  // ---------------------------------------------------------------------
  // The dictionary's key order

  /** No key occurs twice. */
  predicate NoDuplicates(keys: seq<string>)
  {
    forall i, j :: 0 <= i < j < |keys| ==> keys[i] != keys[j]
  }

  /** The key order after storing under key: a new key goes last, an
      existing key keeps its place. */
  function Inserted(keys: seq<string>, key: string): (r: seq<string>)
    ensures key in r && forall k :: k in r <==> k in keys || k == key
    ensures |r| == |keys| + (if key in keys then 0 else 1)
    ensures r[..|keys|] == keys
    ensures NoDuplicates(keys) ==> NoDuplicates(r)
  {
    if key in keys then keys else keys + [key]
  }

  /** The key a class is registered under: its name in lower case. */
  function Key(c: MethodClass): string
  {
    Lower(c.name)
  }

  /** The name get_method_choices pairs with a registered class: its display_name, or
      the title-cased key when it has none. */
  function ChoiceName(key: string, c: MethodClass): string
  {
    match c.displayName
    case Some(d) => d
    case None => Title(key)
  }

  /** A list of pairs whose first components are the keys, in order, lists
      exactly those keys. */
  lemma KeysListed(keys: seq<string>, pairs: seq<(string, string)>)
    requires |pairs| == |keys| && forall i :: 0 <= i < |keys| ==> pairs[i].0 == keys[i]
    ensures forall k :: k in keys <==> exists i :: 0 <= i < |pairs| && pairs[i].0 == k
  {
    forall k | k in keys ensures exists i :: 0 <= i < |pairs| && pairs[i].0 == k {
      var i :| 0 <= i < |keys| && keys[i] == k;
      assert pairs[i].0 == k;
    }
  }

  /** The choices of a dictionary whose keys, in insertion order, are
      keys: one (key, name) pair per key, in that order, listing every key
      and, when no key repeats, each only once. */
  function Choices(keys: seq<string>, methods: map<string, MethodClass>): (choices: seq<(string, string)>)
    requires forall k :: k in keys ==> k in methods
    ensures |choices| == |keys|
    ensures forall i :: 0 <= i < |keys| ==> choices[i].0 == keys[i]
    ensures forall i :: 0 <= i < |keys| ==> choices[i].1 == ChoiceName(keys[i], methods[keys[i]])
    ensures forall k :: k in keys <==> exists i :: 0 <= i < |choices| && choices[i].0 == k
    ensures NoDuplicates(keys) ==> forall i, j :: 0 <= i < j < |choices| ==> choices[i].0 != choices[j].0
  {
    var choices := seq(|keys|, i requires 0 <= i < |keys| => (keys[i], ChoiceName(keys[i], methods[keys[i]])));
    KeysListed(keys, choices);
    choices
  }

  class SLAEMethodRegistry {
    /** The dictionary's contents. */
    var methods: map<string, MethodClass>
    /** The dictionary's keys in insertion order. */
    var order: seq<string>

    /** The order lists each key of the dictionary exactly once. */
    ghost predicate Valid()
      reads this
    {
      NoDuplicates(order) && forall k :: k in methods <==> k in order
    }

    /** The empty dictionary the class starts with. */
    constructor ()
      ensures Valid() && methods == map[] && order == []
    {
      methods := map[];
      order := [];
    }

    /** get_method: the class stored under id, or None when id is not a key. */
    function GetMethod(id: string): (r: Option<MethodClass>)
      reads this
      ensures r.Some? <==> id in methods
      ensures r.Some? ==> r.value == methods[id]
    {
      if id in methods then Some(methods[id]) else None
    }

    /** register: a class not derived from SLAESolver is refused and
        nothing changes; otherwise it is stored under its lower-cased name,
        replacing any class stored there, and returned. */
    method Register(c: MethodClass) returns (r: Result<MethodClass, RegisterError>)
      requires Valid()
      modifies this
      ensures Valid()
      ensures !c.isSolver ==> r == Failure(TypeError) && methods == old(methods) && order == old(order)
      ensures c.isSolver ==> r == Success(c) && methods == old(methods)[Key(c) := c]
                                && order == Inserted(old(order), Key(c))
      ensures c.isSolver ==> GetMethod(Key(c)) == Some(c)
      ensures c.isSolver ==> forall id :: id != Key(c) ==> GetMethod(id) == old(GetMethod(id))
    {
      if !c.isSolver {
        return Failure(TypeError);
      }
      var key := Lower(c.name);
      if key !in methods {
        order := order + [key];
      }
      methods := methods[key := c];
      return Success(c);
    }

    /** get_method_choices: one (key, name) pair for every key, in
        insertion order, the name being the class's display_name or the
        title-cased key. */
    function GetMethodChoices(): (choices: seq<(string, string)>)
      reads this
      requires Valid()
      ensures |choices| == |order|
      ensures forall i :: 0 <= i < |order| ==> choices[i].0 == order[i]
      ensures forall i :: 0 <= i < |order| ==> choices[i].1 == ChoiceName(order[i], methods[order[i]])
      ensures forall k :: k in methods <==> exists i :: 0 <= i < |choices| && choices[i].0 == k
      ensures forall i, j :: 0 <= i < j < |choices| ==> choices[i].0 != choices[j].0
    {
      Choices(order, methods)
    }
  }

  /** The two solver classes main.py registers (main.py:8-9). */
  const GaussMethod := MethodClass("GaussMethod", true, Some("Метод Гауса"))
  const ZeidelMethod := MethodClass("ZeidelMethod", true, Some("Метод Зейделя"))

  /** The ids the two solvers are registered under. */
  lemma RegisteredKeys()
    ensures Key(GaussMethod) == "gaussmethod" && Key(ZeidelMethod) == "zeidelmethod"
  {
    assert Lower("GaussMethod") == "gaussmethod";
    assert Lower("ZeidelMethod") == "zeidelmethod";
  }

  /** The dictionary those two registrations leave: both solvers, Gauss
      first. */
  const RegisteredKeyOrder: seq<string> := ["gaussmethod", "zeidelmethod"]
  const RegisteredMethods: map<string, MethodClass> := map["gaussmethod" := GaussMethod, "zeidelmethod" := ZeidelMethod]

  /** The choices that dictionary yields: each solver under its own
      display name. */
  lemma RegisteredChoices()
    ensures Choices(RegisteredKeyOrder, RegisteredMethods) == [("gaussmethod", "Метод Гауса"), ("zeidelmethod", "Метод Зейделя")]
  {
    var choices := Choices(RegisteredKeyOrder, RegisteredMethods);
    assert choices[0] == ("gaussmethod", "Метод Гауса");
    assert choices[1] == ("zeidelmethod", "Метод Зейделя");
  }

  /** Registering GaussMethod and then ZeidelMethod into an empty registry,
      as main.py:8-9 do, leaves both solvers under the ids gaussmethod and zeidelmethod
      in that order. */
  method RegisterBoth() returns (reg: SLAEMethodRegistry)
    ensures fresh(reg) && reg.Valid()
    ensures reg.order == RegisteredKeyOrder && reg.methods == RegisteredMethods
    ensures reg.GetMethod("gaussmethod") == Some(GaussMethod)
    ensures reg.GetMethod("zeidelmethod") == Some(ZeidelMethod)
    ensures reg.GetMethodChoices() == [("gaussmethod", "Метод Гауса"), ("zeidelmethod", "Метод Зейделя")]
  {
    reg := new SLAEMethodRegistry();
    RegisteredKeys();
    var r1 := reg.Register(GaussMethod);
    var r2 := reg.Register(ZeidelMethod);
    assert "zeidelmethod" != "gaussmethod";
    assert reg.order == RegisteredKeyOrder;
    RegisteredChoices();
  }
}
