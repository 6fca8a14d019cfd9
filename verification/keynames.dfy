/**
 * The `ClassName_ID` strings that key `markedNodes` and that
 * `markedNodeIDs` returns, with their decimal IDs, and the parse that
 * recovers the node key from one.
 */
module KeyNames {
  import opened Wrappers
  import opened Seqs
  import opened Store
  import Engine

  predicate IsDigit(c: char) {
    '0' <= c <= '9'
  }

  function DigitChar(d: nat): (c: char)
    requires d < 10
    ensures IsDigit(c) && DigitValue(c) == d
  {
    (48 + d) as char
  }

  function DigitValue(c: char): nat
    requires IsDigit(c)
  {
    (c as int) - 48
  }

  /** The decimal form PHP gives an integer in string concatenation. */
  function NatToString(n: nat): (s: string)
    ensures Canonical(s)
    decreases n
  {
    if n < 10 then [DigitChar(n)] else NatToString(n / 10) + [DigitChar(n % 10)]
  }

  /** A non-empty digit string with no leading zero (except `"0"` itself). */
  predicate Canonical(s: string) {
    && |s| >= 1
    && (forall i :: 0 <= i < |s| ==> IsDigit(s[i]))
    && (|s| > 1 ==> s[0] != '0')
  }

  function StringToNat(s: string): nat
    requires |s| >= 1 && forall i :: 0 <= i < |s| ==> IsDigit(s[i])
    decreases |s|
  {
    var last := DigitValue(s[|s| - 1]);
    if |s| == 1 then last else StringToNat(s[..|s| - 1]) * 10 + last
  }

  /** Reading back a printed number gives the number. */
  lemma {:induction false} NumberRoundTrip(n: nat)
    ensures StringToNat(NatToString(n)) == n
    decreases n
  {
    if n >= 10 {
      var s := NatToString(n);
      NumberRoundTrip(n / 10);
      assert s[..|s| - 1] == NatToString(n / 10);
    }
  }

  /** A canonical digit string other than `"0"` reads as a positive number. */
  lemma {:induction false} CanonicalPositive(s: string)
    requires Canonical(s) && s[0] != '0'
    ensures StringToNat(s) >= 1
    decreases |s|
  {
    if |s| > 1 {
      CanonicalPositive(s[..|s| - 1]);
    }
  }

  /** Printing the number a canonical string reads as gives the string back. */
  lemma {:induction false} StringRoundTrip(s: string)
    requires Canonical(s)
    ensures NatToString(StringToNat(s)) == s
    decreases |s|
  {
    if |s| > 1 {
      var p := s[..|s| - 1];
      assert Canonical(p);
      StringRoundTrip(p);
      if |p| > 1 {
        CanonicalPositive(p);
      } else {
        assert p[0] == s[0];
      }
      var n := StringToNat(s);
      assert n / 10 == StringToNat(p) && n % 10 == DigitValue(s[|s| - 1]);
      assert s == p + [s[|s| - 1]];
    }
  }

  /** The class a class name names, if any. */
  function KindOfName(name: string): (r: Option<Kind>)
    ensures r.Some? ==> KindName(r.value) == name
    ensures forall kd :: KindName(kd) == name ==> r == Some(kd)
  {
    if name == "SnippetPackage" then Some(Package)
    else if name == "SnippetLanguage" then Some(Language)
    else if name == "SnippetFolder" then Some(Folder)
    else if name == "Snippet" then Some(Snippet)
    else None
  }

  /** `$node->ClassName . '_' . $node->ID`. */
  function KeyName(k: Key): string {
    KindName(k.kind) + "_" + NatToString(k.id)
  }

  /** The position of the first `_`, if there is one. */
  function FindSep(s: string): (r: Option<nat>)
    ensures r.Some? ==> r.value < |s| && s[r.value] == '_' && forall i :: 0 <= i < r.value ==> s[i] != '_'
    ensures r.None? ==> forall i :: 0 <= i < |s| ==> s[i] != '_'
  {
    if s == [] then None
    else if s[0] == '_' then Some(0)
    else match FindSep(s[1..])
      case None => None
      case Some(i) => Some(i + 1)
  }

  /** The first `_` of `a + "_" + b` is the one after `a` when `a` has none. */
  lemma FindSepAfter(a: string, b: string)
    requires forall i :: 0 <= i < |a| ==> a[i] != '_'
    ensures FindSep(a + "_" + b) == Some(|a|)
  {
    var s := a + "_" + b;
    assert s[|a|] == '_';
    forall i | 0 <= i < |a|
      ensures s[i] != '_'
    {
      assert s[i] == a[i];
    }
  }

  /** The key a `ClassName_ID` string names: a class name, `_`, a canonical decimal ID. */
  function ParseKeyName(s: string): Option<Key> {
    match FindSep(s)
    case None => None
    case Some(i) =>
      var digits := s[i + 1..];
      match KindOfName(s[..i])
      case None => None
      case Some(kd) => if Canonical(digits) then Some(Key(kd, StringToNat(digits))) else None
  }

  lemma NoSepInKindName(kd: Kind)
    ensures forall i :: 0 <= i < |KindName(kd)| ==> KindName(kd)[i] != '_'
  {
  }

  /** A key's name parses back to the key. */
  lemma KeyNameRoundTrip(k: Key)
    ensures ParseKeyName(KeyName(k)) == Some(k)
  {
    var a, b := KindName(k.kind), NatToString(k.id);
    var s := KeyName(k);
    NoSepInKindName(k.kind);
    FindSepAfter(a, b);
    assert s[..|a|] == a && s[|a| + 1..] == b;
    NumberRoundTrip(k.id);
  }

  /** A string parses to a key exactly when it is that key's name. */
  lemma ParseKeyNameExact(s: string, k: Key)
    ensures ParseKeyName(s) == Some(k) <==> s == KeyName(k)
  {
    if s == KeyName(k) {
      KeyNameRoundTrip(k);
    }
    if ParseKeyName(s) == Some(k) {
      var i := FindSep(s).value;
      var digits := s[i + 1..];
      StringRoundTrip(digits);
      assert s == s[..i] + "_" + digits;
    }
  }

  /** Distinct keys have distinct names. */
  lemma KeyNameInjective(a: Key, b: Key)
    ensures KeyName(a) == KeyName(b) ==> a == b
  {
    KeyNameRoundTrip(a);
    KeyNameRoundTrip(b);
  }

  /** `markedNodeIDs`: the keys of `markedNodes`, in insertion order. */
  function MarkedNodeIDs(h: Engine.Hierarchy): (r: seq<string>)
    ensures |r| == |h.markedNodes|
  {
    seq(|h.markedNodes|, i requires 0 <= i < |h.markedNodes| => KeyName(h.markedNodes[i]))
  }

  /** The names decode to the marked nodes, position by position, and repeat no key. */
  lemma MarkedNodeIDsDecode(h: Engine.Hierarchy)
    ensures forall i :: 0 <= i < |h.markedNodes| ==> ParseKeyName(MarkedNodeIDs(h)[i]) == Some(h.markedNodes[i])
    ensures Distinct(h.markedNodes) ==> Distinct(MarkedNodeIDs(h))
  {
    var r := MarkedNodeIDs(h);
    forall i | 0 <= i < |h.markedNodes|
      ensures ParseKeyName(r[i]) == Some(h.markedNodes[i])
    {
      KeyNameRoundTrip(h.markedNodes[i]);
    }
    if Distinct(h.markedNodes) {
      forall i, j | 0 <= i < j < |r|
        ensures r[i] != r[j]
      {
        KeyNameInjective(h.markedNodes[i], h.markedNodes[j]);
      }
    }
  }

  /** A string is one of the names exactly when it names a marked node. */
  lemma MarkedNodeIDsMembers(h: Engine.Hierarchy, s: string)
    ensures s in MarkedNodeIDs(h) <==> ParseKeyName(s).Some? && ParseKeyName(s).value in h.markedNodes
  {
    var r := MarkedNodeIDs(h);
    if s in r {
      var i :| 0 <= i < |r| && r[i] == s;
      KeyNameRoundTrip(h.markedNodes[i]);
    }
    if ParseKeyName(s).Some? && ParseKeyName(s).value in h.markedNodes {
      var k := ParseKeyName(s).value;
      var i :| 0 <= i < |h.markedNodes| && h.markedNodes[i] == k;
      ParseKeyNameExact(s, k);
      assert r[i] == s;
    }
  }

  /**
   * The `$className.'_'.$id` lookup of `markById` names the key of the class
   * the class name names, and nothing when it names none.
   */
  lemma ClassKeyParses(cls: string, id: nat)
    ensures ParseKeyName(cls + "_" + NatToString(id)) ==
              (match KindOfName(cls) case Some(kd) => Some(Key(kd, id)) case None => None)
  {
    var s := cls + "_" + NatToString(id);
    match KindOfName(cls)
    case Some(kd) =>
      assert s == KeyName(Key(kd, id));
      KeyNameRoundTrip(Key(kd, id));
    case None =>
      assert s[|cls|] == '_';
      var i := FindSep(s).value;
      if i < |cls| {
        var digits := s[i + 1..];
        assert digits[|cls| - i - 1] == '_';
      } else {
        assert s[..i] == cls;
      }
  }
}
