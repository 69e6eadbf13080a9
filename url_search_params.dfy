/**
 * `URLSearchParams` as the WHATWG URL Standard defines it (section 6.2): an
 * ordered list of name-value pairs, with `get`, `getAll`, `set`, `delete`,
 * `size` and `toString`, the last being the application/x-www-form-urlencoded
 * serializer of section 5.2.
 */
module UrlSearchParams {
  import opened Wrappers
  import opened JsText

  /** One name-value pair of the list. */
  datatype Pair = Pair(name: string, value: string)

  // -----------------------------------------------------------------------
  // Reading the list
  // -----------------------------------------------------------------------

  /** `getAll(name)`: the values of the pairs named `name`, in list order. */
  function Values(list: seq<Pair>, name: string): (vs: seq<string>)
    ensures |vs| <= |list|
  {
    if list == [] then []
    else (if list[0].name == name then [list[0].value] else []) + Values(list[1..], name)
  }

  /** `get(name)`: the value of the first pair named `name`, if any. */
  function Get(list: seq<Pair>, name: string): (r: Option<string>)
    ensures r == if Values(list, name) == [] then None else Some(Values(list, name)[0])
  {
    if list == [] then None
    else if list[0].name == name then Some(list[0].value)
    else Get(list[1..], name)
  }

  /** A name has no values exactly when no pair carries it. */
  lemma {:induction false} ValuesEmpty(list: seq<Pair>, name: string)
    ensures Values(list, name) == [] <==> forall i :: 0 <= i < |list| ==> list[i].name != name
  {
    if list != [] {
      ValuesEmpty(list[1..], name);
      assert forall i :: 1 <= i < |list| ==> list[i] == list[1..][i - 1];
    }
  }

  /** The index of the first pair named `name`. */
  function FirstIndex(list: seq<Pair>, name: string): (k: nat)
    requires Values(list, name) != []
    ensures k < |list| && list[k].name == name && Values(list[..k], name) == []
  {
    if list[0].name == name then 0
    else
      var k := 1 + FirstIndex(list[1..], name);
      assert list[..k] == [list[0]] + list[1..][..k - 1];
      k
  }

  lemma {:induction false} ValuesAppend(a: seq<Pair>, b: seq<Pair>, name: string)
    ensures Values(a + b, name) == Values(a, name) + Values(b, name)
  {
    if a != [] {
      assert (a + b)[1..] == a[1..] + b;
      ValuesAppend(a[1..], b, name);
    } else {
      assert a + b == b;
    }
  }

  /** A match in `a` is still the first one in `a + b`. */
  lemma FirstIndexAppend(a: seq<Pair>, b: seq<Pair>, name: string)
    requires Values(a, name) != []
    ensures Values(a + b, name) != [] && FirstIndex(a + b, name) == FirstIndex(a, name)
  {
    ValuesAppend(a, b, name);
    var k, k' := FirstIndex(a, name), FirstIndex(a + b, name);
    if k < k' {
      assert (a + b)[..k'] == a[..k] + [a[k]] + (a + b)[k + 1..k'];
      ValuesAppend(a[..k] + [a[k]], (a + b)[k + 1..k'], name);
      ValuesAppend(a[..k], [a[k]], name);
    } else if k' < k {
      assert a[..k] == (a + b)[..k'] + [a[k']] + a[k' + 1..k];
      ValuesAppend((a + b)[..k'] + [a[k']], a[k' + 1..k], name);
      ValuesAppend((a + b)[..k'], [a[k']], name);
    }
  }

  // -----------------------------------------------------------------------
  // delete and set
  // -----------------------------------------------------------------------

  /** `delete(name)`: the list without the pairs named `name`. */
  function Removed(list: seq<Pair>, name: string): (r: seq<Pair>)
    ensures |r| == |list| - |Values(list, name)|
  {
    if list == [] then []
    else if list[0].name == name then Removed(list[1..], name)
    else [list[0]] + Removed(list[1..], name)
  }

  /**
   * After `delete(name)` no pair named `name` is left, and every other
   * name keeps all its values, in order.
   */
  lemma {:induction false} RemovedValues(list: seq<Pair>, name: string, other: string)
    ensures Values(Removed(list, name), other) == if other == name then [] else Values(list, other)
  {
    if list != [] {
      RemovedValues(list[1..], name, other);
      if list[0].name != name {
        assert ([list[0]] + Removed(list[1..], name))[1..] == Removed(list[1..], name);
      }
    }
  }

  lemma {:induction false} RemovedAppend(a: seq<Pair>, b: seq<Pair>, name: string)
    ensures Removed(a + b, name) == Removed(a, name) + Removed(b, name)
  {
    if a != [] {
      assert (a + b)[1..] == a[1..] + b;
      RemovedAppend(a[1..], b, name);
    } else {
      assert a + b == b;
    }
  }

  /** `delete` of a name the list does not hold changes nothing. */
  lemma {:induction false} RemovedAbsent(list: seq<Pair>, name: string)
    requires Values(list, name) == []
    ensures Removed(list, name) == list
  {
    if list != [] {
      assert Values(list[1..], name) == [];
      RemovedAbsent(list[1..], name);
    }
  }

  /** Deleting a name twice is deleting it once. */
  lemma RemovedTwice(list: seq<Pair>, name: string)
    ensures Removed(Removed(list, name), name) == Removed(list, name)
  {
    RemovedValues(list, name, name);
    RemovedAbsent(Removed(list, name), name);
  }

  /** Deleting two names gives the same list in either order. */
  lemma {:induction false} RemovedCommutes(list: seq<Pair>, a: string, b: string)
    ensures Removed(Removed(list, a), b) == Removed(Removed(list, b), a)
  {
    if list != [] {
      RemovedCommutes(list[1..], a, b);
    }
  }

  /**
   * `set(name, value)` on a list holding `name`: the first such pair takes
   * `value` in place and the later ones are removed.
   */
  function ReplaceFirst(list: seq<Pair>, name: string, value: string): seq<Pair>
    requires Values(list, name) != []
  {
    var k := FirstIndex(list, name);
    list[..k] + [Pair(name, value)] + Removed(list[k + 1..], name)
  }

  /** `set(name, value)`: replace the first pair named `name`, or append one. */
  function Updated(list: seq<Pair>, name: string, value: string): (r: seq<Pair>)
    ensures Values(list, name) == [] ==> r == list + [Pair(name, value)]
  {
    if Values(list, name) == [] then list + [Pair(name, value)]
    else ReplaceFirst(list, name, value)
  }

  /** The three pieces `ReplaceFirst` is made of, and of what they are cut from. */
  lemma ReplaceFirstPieces(list: seq<Pair>, name: string, value: string)
    requires Values(list, name) != []
    ensures var k := FirstIndex(list, name);
      && list == list[..k] + [list[k]] + list[k + 1..]
      && Values(list[..k], name) == []
  {
  }

  /**
   * When `name` occurs, `set(name, value)` overwrites its first pair in
   * place: the pairs before it are untouched and the new pair takes its
   * position.
   */
  lemma UpdatedInPlace(list: seq<Pair>, name: string, value: string)
    requires Values(list, name) != []
    ensures var k := FirstIndex(list, name); var r := Updated(list, name, value);
      && k < |r| && r[..k] == list[..k] && r[k] == Pair(name, value)
  {
    var k := FirstIndex(list, name);
    var r := Updated(list, name, value);
    assert r == list[..k] + [Pair(name, value)] + Removed(list[k + 1..], name);
    assert r[..k] == list[..k];
  }

  /**
   * After `set(name, value)`, `name` has exactly the one value `value`;
   * every other name keeps all its values, in order.
   */
  lemma UpdatedValues(list: seq<Pair>, name: string, value: string, other: string)
    ensures Values(Updated(list, name, value), other)
      == if other == name then [value] else Values(list, other)
  {
    if Values(list, name) == [] {
      ValuesAppend(list, [Pair(name, value)], other);
    } else {
      ReplaceFirstValues(list, name, value, other);
    }
  }

  lemma ReplaceFirstValues(list: seq<Pair>, name: string, value: string, other: string)
    requires Values(list, name) != []
    ensures Values(ReplaceFirst(list, name, value), other)
      == if other == name then [value] else Values(list, other)
  {
    var mid := [Pair(name, value)];
    var k := FirstIndex(list, name);
    var pre, post := list[..k], list[k + 1..];
    ReplaceFirstPieces(list, name, value);
    ValuesAppend(pre + mid, Removed(post, name), other);
    ValuesAppend(pre, mid, other);
    RemovedValues(post, name, other);
    ValuesAppend(pre + [list[k]], post, other);
    ValuesAppend(pre, [list[k]], other);
  }

  /** Apart from pairs named `name`, `set(name, value)` leaves the list as it was, order included. */
  lemma UpdatedRemoved(list: seq<Pair>, name: string, value: string)
    ensures Removed(Updated(list, name, value), name) == Removed(list, name)
  {
    var mid := [Pair(name, value)];
    if Values(list, name) == [] {
      RemovedAppend(list, mid, name);
      RemovedAbsent(list, name);
    } else {
      var k := FirstIndex(list, name);
      var pre, post := list[..k], list[k + 1..];
      ReplaceFirstPieces(list, name, value);
      RemovedAbsent(pre, name);
      RemovedAppend(pre + mid, Removed(post, name), name);
      RemovedAppend(pre, mid, name);
      RemovedTwice(post, name);
      RemovedAppend(pre + [list[k]], post, name);
      RemovedAppend(pre, [list[k]], name);
    }
  }

  /** `set` of the one value a name already has changes nothing. */
  lemma UpdatedSame(list: seq<Pair>, name: string, value: string)
    requires Values(list, name) == [value]
    ensures Updated(list, name, value) == list
  {
    var k := FirstIndex(list, name);
    var pre, post := list[..k], list[k + 1..];
    ReplaceFirstPieces(list, name, value);
    ValuesAppend(pre + [list[k]], post, name);
    ValuesAppend(pre, [list[k]], name);
    assert Values([list[k]], name) == [list[k].value] by {
      assert [list[k]][1..] == [];
    }
    assert ([list[k].value] + Values(post, name))[0] == list[k].value;
    assert list[k] == Pair(name, value);
    RemovedAbsent(post, name);
  }

  /** Setting the same pair twice is setting it once. */
  lemma UpdatedIdempotent(list: seq<Pair>, name: string, value: string)
    ensures Updated(Updated(list, name, value), name, value) == Updated(list, name, value)
  {
    UpdatedValues(list, name, value, name);
    UpdatedSame(Updated(list, name, value), name, value);
  }

  // -----------------------------------------------------------------------
  // The application/x-www-form-urlencoded serializer (toString)
  // -----------------------------------------------------------------------

  /** The UTF-8 encoding of one Unicode scalar value. */
  function Utf8(c: char): (bytes: seq<nat>)
    ensures 1 <= |bytes| <= 4
    ensures forall i :: 0 <= i < |bytes| ==> bytes[i] < 256
    ensures |bytes| == 1 <==> c as int < 0x80
    ensures |bytes| == 1 ==> bytes[0] == c as int
  {
    var n := c as int;
    if n < 0x80 then [n]
    else if n < 0x800 then [0xC0 + n / 0x40, 0x80 + n % 0x40]
    else if n < 0x1_0000 then [0xE0 + n / 0x1000, 0x80 + (n / 0x40) % 0x40, 0x80 + n % 0x40]
    else [0xF0 + n / 0x4_0000, 0x80 + (n / 0x1000) % 0x40, 0x80 + (n / 0x40) % 0x40, 0x80 + n % 0x40]
  }

  /** The bytes left unencoded: ASCII alphanumerics, '*', '-', '.' and '_'. */
  predicate IsUnreservedByte(b: nat) {
    || ('0' as nat <= b <= '9' as nat) || ('A' as nat <= b <= 'Z' as nat) || ('a' as nat <= b <= 'z' as nat)
    || b == '*' as nat || b == '-' as nat || b == '.' as nat || b == '_' as nat
  }

  /** An upper-case hexadecimal digit. */
  function HexDigit(d: nat): (c: char)
    requires d < 16
    ensures IsDigit(c) || 'A' <= c <= 'F'
  {
    if d < 10 then DigitChar(d) else ('A' as int + d - 10) as char
  }

  /** One byte, percent-encoded with space as '+'. */
  function EncodeByte(b: nat): (s: string)
    requires b < 256
    ensures '&' !in s && '=' !in s
  {
    if b == 0x20 then "+"
    else if IsUnreservedByte(b) then [b as char]
    else ['%', HexDigit(b / 16), HexDigit(b % 16)]
  }

  function EncodeBytes(bytes: seq<nat>): (s: string)
    requires forall i :: 0 <= i < |bytes| ==> bytes[i] < 256
    ensures '&' !in s && '=' !in s
  {
    if bytes == [] then [] else EncodeByte(bytes[0]) + EncodeBytes(bytes[1..])
  }

  /** A name or a value as `toString` writes it: UTF-8, then percent-encoded. */
  function FormEncode(s: string): (r: string)
    ensures '&' !in r && '=' !in r
  {
    if s == [] then [] else EncodeBytes(Utf8(s[0])) + FormEncode(s[1..])
  }

  /** The characters `toString` writes as they are. */
  predicate IsUnreserved(c: char) {
    c as int < 0x80 && IsUnreservedByte(c as int)
  }

  /** A string of unreserved characters is written as it is. */
  lemma {:induction false} FormEncodeUnreserved(s: string)
    requires forall i :: 0 <= i < |s| ==> IsUnreserved(s[i])
    ensures FormEncode(s) == s
  {
    if s != [] {
      FormEncodeUnreserved(s[1..]);
      assert EncodeBytes(Utf8(s[0])) == [s[0]];
    }
  }

  /** One pair as `toString` writes it: "name=value". */
  function EncodePair(p: Pair): string {
    FormEncode(p.name) + "=" + FormEncode(p.value)
  }

  /** `toString()`: the encoded pairs, in list order, separated by '&'. */
  function Serialize(list: seq<Pair>): string {
    if list == [] then "" else Join(seq(|list|, i requires 0 <= i < |list| => EncodePair(list[i])), '&')
  }

  /** The serialization is empty exactly when the list is. */
  lemma SerializeEmpty(list: seq<Pair>)
    ensures Serialize(list) == "" <==> list == []
  {
    if list != [] {
      var parts := seq(|list|, i requires 0 <= i < |list| => EncodePair(list[i]));
      JoinHasFirst(parts, '&');
      assert EncodePair(list[0])[|FormEncode(list[0].name)|] == '=';
    }
  }

  lemma {:induction false} JoinHasFirst(parts: seq<string>, sep: char)
    requires |parts| >= 1
    ensures |Join(parts, sep)| >= |parts[0]| && Join(parts, sep)[..|parts[0]|] == parts[0]
  {
  }

  /**
   * The serialization splits back at '&' into one "name=value" piece per
   * pair, in order, and each piece splits at '=' into the encoded name and
   * the encoded value: no pair's text runs into another's.
   */
  lemma SerializeSplits(list: seq<Pair>)
    requires list != []
    ensures var pieces := Split(Serialize(list), '&');
      && |pieces| == |list|
      && forall i :: 0 <= i < |list| ==>
           Split(pieces[i], '=') == [FormEncode(list[i].name), FormEncode(list[i].value)]
  {
    var parts := seq(|list|, i requires 0 <= i < |list| => EncodePair(list[i]));
    forall i | 0 <= i < |parts| ensures '&' !in parts[i] {
      assert parts[i] == FormEncode(list[i].name) + "=" + FormEncode(list[i].value);
    }
    SplitJoin(parts, '&');
    forall i | 0 <= i < |list|
      ensures Split(parts[i], '=') == [FormEncode(list[i].name), FormEncode(list[i].value)]
    {
      var pieces := [FormEncode(list[i].name), FormEncode(list[i].value)];
      SplitJoin(pieces, '=');
      assert Join(pieces, '=') == parts[i];
    }
  }

  // -----------------------------------------------------------------------
  // The object
  // -----------------------------------------------------------------------

  /** A `URLSearchParams` object: its list is updated in place by `set` and `delete`. */
  class Params {
    var list: seq<Pair>

    /** `new URLSearchParams(init)`: a copy of the pairs of `init`, in order. */
    constructor (init: seq<Pair>)
      ensures list == init
    {
      list := init;
    }

    /** `set(name, value)`, walking the list once. */
    method Set(name: string, value: string)
      modifies this
      ensures list == Updated(old(list), name, value)
    {
      var pairs := list;
      var out: seq<Pair> := [];
      var found := false;
      var i := 0;
      while i < |pairs|
        invariant 0 <= i <= |pairs|
        invariant found <==> Values(pairs[..i], name) != []
        invariant !found ==> out == pairs[..i]
        invariant found ==> out == ReplaceFirst(pairs[..i], name, value)
      {
        var p := pairs[i];
        assert pairs[..i + 1] == pairs[..i] + [p];
        ValuesAppend(pairs[..i], [p], name);
        if found {
          ReplaceFirstAppend(pairs[..i], p, name, value);
        } else if p.name == name {
          ReplaceFirstAtEnd(pairs[..i], p, name, value);
        }
        if p.name != name {
          out := out + [p];
        } else if !found {
          out := out + [Pair(name, value)];
          found := true;
        }
        i := i + 1;
      }
      assert pairs[..i] == pairs;
      if !found {
        out := out + [Pair(name, value)];
      }
      list := out;
    }

    /** `delete(name)`, walking the list once. */
    method Delete(name: string)
      modifies this
      ensures list == Removed(old(list), name)
    {
      var pairs := list;
      var out: seq<Pair> := [];
      var i := 0;
      while i < |pairs|
        invariant 0 <= i <= |pairs|
        invariant out == Removed(pairs[..i], name)
      {
        assert pairs[..i + 1] == pairs[..i] + [pairs[i]];
        RemovedAppend(pairs[..i], [pairs[i]], name);
        if pairs[i].name != name {
          out := out + [pairs[i]];
        }
        i := i + 1;
      }
      assert pairs[..i] == pairs;
      list := out;
    }
  }

  /** Scanning one more pair after the first match drops it or keeps it. */
  lemma ReplaceFirstAppend(a: seq<Pair>, p: Pair, name: string, value: string)
    requires Values(a, name) != []
    ensures Values(a + [p], name) != []
    ensures ReplaceFirst(a + [p], name, value)
      == ReplaceFirst(a, name, value) + (if p.name == name then [] else [p])
  {
    ReplaceFirstConcat(a, [p], name, value);
    RemovedOne(p, name);
  }

  /** Pairs appended after the first match are kept, except those named `name`. */
  lemma ReplaceFirstConcat(a: seq<Pair>, c: seq<Pair>, name: string, value: string)
    requires Values(a, name) != []
    ensures Values(a + c, name) != []
    ensures ReplaceFirst(a + c, name, value) == ReplaceFirst(a, name, value) + Removed(c, name)
  {
    var k := FirstIndex(a, name);
    FirstIndexAppend(a, c, name);
    var head, rest := a[..k] + [Pair(name, value)], a[k + 1..];
    assert (a + c)[..k] == a[..k];
    assert (a + c)[k + 1..] == rest + c;
    ReplaceFirstAt(a + c, name, value, k);
    ReplaceFirstAt(a, name, value, k);
    RemovedAppend(rest, c, name);
    ConcatAssoc(head, Removed(rest, name), Removed(c, name));
  }

  lemma ConcatAssoc(x: seq<Pair>, y: seq<Pair>, z: seq<Pair>)
    ensures x + (y + z) == (x + y) + z
  {
  }

  /** `ReplaceFirst` cut at a known first index. */
  lemma ReplaceFirstAt(list: seq<Pair>, name: string, value: string, k: nat)
    requires Values(list, name) != [] && FirstIndex(list, name) == k
    ensures ReplaceFirst(list, name, value) == list[..k] + [Pair(name, value)] + Removed(list[k + 1..], name)
  {
  }

  /** `delete` on a single pair. */
  lemma RemovedOne(p: Pair, name: string)
    ensures Removed([p], name) == if p.name == name then [] else [p]
  {
    assert [p][1..] == [];
  }

  /** The first match at the end of the scanned part is replaced there. */
  lemma ReplaceFirstAtEnd(a: seq<Pair>, p: Pair, name: string, value: string)
    requires Values(a, name) == [] && p.name == name
    ensures Values(a + [p], name) != []
    ensures ReplaceFirst(a + [p], name, value) == a + [Pair(name, value)]
  {
    ValuesAppend(a, [p], name);
    ValuesEmpty(a, name);
    var k := FirstIndex(a + [p], name);
    assert k == |a|;
    assert (a + [p])[..k] == a;
  }
}
