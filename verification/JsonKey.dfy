/** JSONStringKey: finding one top-level member of a JSON object by its tokens, skipping values by depth. */
module JsonKey {
  import opened Bytes

  datatype Json = Literal | Text(s: Bytes) | Array(items: Items) | Object(members: Members)

  datatype Items = NoItems | Item(head: Json, tail: Items)

  datatype Members = NoMembers | Member(name: Bytes, value: Json, tail: Members)

  /** What the decoder gives: delimiters, strings (member names too), and numbers, booleans and null. */
  datatype Token = OpenArray | CloseArray | OpenObject | CloseObject | String(s: Bytes) | Scalar

  function Tokens(v: Json): (ts: seq<Token>)
    ensures ts != []
  {
    match v
    case Literal => [Scalar]
    case Text(s) => [String(s)]
    case Array(items) => [OpenArray] + ItemTokens(items) + [CloseArray]
    case Object(members) => [OpenObject] + MemberTokens(members) + [CloseObject]
  }

  function ItemTokens(items: Items): seq<Token> {
    match items
    case NoItems => []
    case Item(head, tail) => Tokens(head) + ItemTokens(tail)
  }

  function MemberTokens(members: Members): seq<Token> {
    match members
    case NoMembers => []
    case Member(name, value, tail) => [String(name)] + Tokens(value) + MemberTokens(tail)
  }

  /** The value of the first member with this name. */
  function First(members: Members, name: Bytes): Option<Json> {
    match members
    case NoMembers => None
    case Member(n, value, tail) => if n == name then Some(value) else First(tail, name)
  }

  /** The key of a line: the first top-level member of that name, if it is a non-empty string. */
  function KeyIn(v: Json, field: Bytes): Option<Bytes> {
    match v
    case Object(members) =>
      (match First(members, field)
       case Some(Text(s)) => if s == [] then None else Some(s)
       case _ => None)
    case _ => None
  }

  // ----- skipping by depth -------------------------------------------------------------------

  /** The members in order, as names and values. */
  function Listed(members: Members): seq<(Bytes, Json)> {
    match members
    case NoMembers => []
    case Member(name, value, tail) => [(name, value)] + Listed(tail)
  }

  /** Member i is the first with this name, and it has this value. */
  ghost predicate FirstWith(ms: seq<(Bytes, Json)>, i: int, name: Bytes, v: Json) {
    0 <= i < |ms| && ms[i] == (name, v) && forall j :: 0 <= j < i ==> ms[j].0 != name
  }

  lemma AtFront(ms: seq<(Bytes, Json)>, i: int, name: Bytes, v: Json)
    requires |ms| > 0 && ms[0].0 == name && FirstWith(ms, i, name, v)
    ensures i == 0
  {}

  lemma NotAtFront(ms: seq<(Bytes, Json)>, i: int, name: Bytes, v: Json)
    requires |ms| > 0 && ms[0].0 != name
    ensures FirstWith(ms, i + 1, name, v) <==> FirstWith(ms[1..], i, name, v)
  {
    var rest := ms[1..];
    if FirstWith(ms, i + 1, name, v) {
      assert i >= 0;
      forall j | 0 <= j < i ensures rest[j].0 != name { assert rest[j] == ms[j + 1]; }
    }
    if FirstWith(rest, i, name, v) {
      forall j | 0 <= j < i + 1 ensures ms[j].0 != name { assert j > 0 ==> ms[j] == rest[j - 1]; }
    }
  }

  lemma {:induction false} FirstHas(members: Members, name: Bytes) returns (i: int)
    requires First(members, name).Some?
    ensures FirstWith(Listed(members), i, name, First(members, name).value)
  {
    if members.name == name {
      i := 0;
    } else {
      var k := FirstHas(members.tail, name);
      assert Listed(members)[1..] == Listed(members.tail);
      NotAtFront(Listed(members), k, name, First(members, name).value);
      i := k + 1;
    }
  }

  lemma {:induction false} FirstIs(members: Members, name: Bytes, i: int, v: Json)
    requires FirstWith(Listed(members), i, name, v)
    ensures First(members, name) == Some(v)
  {
    if members.name == name {
      AtFront(Listed(members), i, name, v);
    } else {
      assert i != 0;
      assert Listed(members)[1..] == Listed(members.tail);
      NotAtFront(Listed(members), i - 1, name, v);
      FirstIs(members.tail, name, i - 1, v);
    }
  }

  lemma FirstIff(members: Members, ms: seq<(Bytes, Json)>, name: Bytes, v: Json)
    requires ms == Listed(members)
    ensures First(members, name) == Some(v) <==> exists i :: FirstWith(ms, i, name, v)
  {
    hide FirstWith;
    if First(members, name) == Some(v) {
      var i := FirstHas(members, name);
      assert FirstWith(ms, i, name, v);
    }
    if i :| FirstWith(ms, i, name, v) {
      FirstIs(members, name, i, v);
    }
  }

  /** The key is the first top-level member of the name, a string, and not the empty one. */
  lemma KeyInIff(v: Json, field: Bytes, key: Bytes, ms: seq<(Bytes, Json)>)
    requires ms == if v.Object? then Listed(v.members) else []
    ensures KeyIn(v, field) == Some(key) <==> |key| > 0 && exists i :: FirstWith(ms, i, field, Text(key))
  {
    if v.Object? { FirstIff(v.members, ms, field, Text(key)); }
  }

  function Deeper(depth: nat, t: Token): nat
    requires depth > 0
  {
    match t
    case OpenArray => depth + 1
    case OpenObject => depth + 1
    case CloseArray => depth - 1
    case CloseObject => depth - 1
    case _ => depth
  }

  /** What is left once the depth has come down to zero; None when the tokens run out first. */
  function After(ts: seq<Token>, depth: nat): Option<seq<Token>>
    decreases |ts|
  {
    if depth == 0 then Some(ts)
    else if ts == [] then None
    else After(ts[1..], Deeper(depth, ts[0]))
  }

  /** A whole value leaves the depth where it was. */
  lemma {:induction false} ValueBalances(v: Json, rest: seq<Token>, depth: nat)
    requires depth > 0
    ensures After(Tokens(v) + rest, depth) == After(rest, depth)
  {
    var all := Tokens(v) + rest;
    match v
    case Literal => assert all[1..] == rest;
    case Text(s) => assert all[1..] == rest;
    case Array(items) =>
      assert all[1..] == ItemTokens(items) + ([CloseArray] + rest);
      ItemsBalance(items, [CloseArray] + rest, depth + 1);
      assert ([CloseArray] + rest)[1..] == rest;
    case Object(members) =>
      assert all[1..] == MemberTokens(members) + ([CloseObject] + rest);
      MembersBalance(members, [CloseObject] + rest, depth + 1);
      assert ([CloseObject] + rest)[1..] == rest;
  }

  lemma {:induction false} ItemsBalance(items: Items, rest: seq<Token>, depth: nat)
    requires depth > 0
    ensures After(ItemTokens(items) + rest, depth) == After(rest, depth)
  {
    match items
    case NoItems => assert ItemTokens(items) + rest == rest;
    case Item(head, tail) =>
      assert ItemTokens(items) + rest == Tokens(head) + (ItemTokens(tail) + rest);
      ValueBalances(head, ItemTokens(tail) + rest, depth);
      ItemsBalance(tail, rest, depth);
  }

  lemma {:induction false} MembersBalance(members: Members, rest: seq<Token>, depth: nat)
    requires depth > 0
    ensures After(MemberTokens(members) + rest, depth) == After(rest, depth)
  {
    match members
    case NoMembers => assert MemberTokens(members) + rest == rest;
    case Member(name, value, tail) =>
      var more := Tokens(value) + (MemberTokens(tail) + rest);
      assert MemberTokens(members) + rest == [String(name)] + more;
      assert ([String(name)] + more)[1..] == more;
      ValueBalances(value, MemberTokens(tail) + rest, depth);
      MembersBalance(tail, rest, depth);
  }

  /** After a container's opening token, depth one comes down to zero just past its closing one. */
  lemma ContainerEnds(v: Json, rest: seq<Token>)
    requires v.Array? || v.Object?
    ensures After((Tokens(v) + rest)[1..], 1) == Some(rest)
  {
    match v
    case Array(items) =>
      assert (Tokens(v) + rest)[1..] == ItemTokens(items) + ([CloseArray] + rest);
      ItemsBalance(items, [CloseArray] + rest, 1);
      assert ([CloseArray] + rest)[1..] == rest;
    case Object(members) =>
      assert (Tokens(v) + rest)[1..] == MemberTokens(members) + ([CloseObject] + rest);
      MembersBalance(members, [CloseObject] + rest, 1);
      assert ([CloseObject] + rest)[1..] == rest;
  }

  // ----- the decoder and its users -------------------------------------------------------------

  /** A token stream; reading past its end is an error. */
  class Decoder {
    var rest: seq<Token>

    constructor (tokens: seq<Token>)
      ensures rest == tokens
    {
      rest := tokens;
    }

    method Next() returns (t: Option<Token>)
      modifies this
      ensures old(rest) == [] ==> t == None && rest == []
      ensures old(rest) != [] ==> t == Some(old(rest)[0]) && rest == old(rest)[1..]
    {
      if rest == [] {
        return None;
      }
      t := Some(rest[0]);
      rest := rest[1..];
    }

    /** Whether the current array or object has another element. */
    predicate More()
      reads this
    {
      rest != [] && rest[0] != CloseArray && rest[0] != CloseObject
    }
  }

  /** skipJSONValue: consumes exactly the tokens of one value, at any nesting depth. */
  method SkipJSONValue(dec: Decoder, ghost v: Json, ghost after: seq<Token>) returns (ok: bool)
    requires dec.rest == Tokens(v) + after
    modifies dec
    ensures ok && dec.rest == after
  {
    if v.Array? || v.Object? { ContainerEnds(v, after); }
    var tok := dec.Next();
    if tok.None? {
      return false;
    }
    if tok.value != OpenObject && tok.value != OpenArray {
      return true;
    }
    var depth: nat := 1;
    while depth > 0
      invariant After(dec.rest, depth) == Some(after)
      decreases |dec.rest|, depth
    {
      tok := dec.Next();
      if tok.None? {
        return false;
      }
      match tok.value
      case OpenArray => depth := depth + 1;
      case OpenObject => depth := depth + 1;
      case CloseArray => depth := depth - 1;
      case CloseObject => depth := depth - 1;
      case _ =>
    }
    return true;
  }

  lemma ObjectTokens(v: Json)
    ensures v.Object? <==> Tokens(v)[0] == OpenObject
    ensures v.Object? ==> Tokens(v)[1..] == MemberTokens(v.members) + [CloseObject]
  {}

  lemma NextMember(left: Members)
    requires var ts := MemberTokens(left) + [CloseObject]; ts[0] != CloseObject
    ensures left.Member?
    ensures MemberTokens(left) + [CloseObject]
            == [String(left.name)] + (Tokens(left.value) + (MemberTokens(left.tail) + [CloseObject]))
  {}

  lemma NoMoreMembers(left: Members)
    requires var ts := MemberTokens(left) + [CloseObject]; ts[0] == CloseArray || ts[0] == CloseObject
    ensures left.NoMembers?
  {}

  /** The first token of a value is a string just when the value is that string. */
  lemma FirstToken(v: Json, after: seq<Token>)
    ensures var ts := Tokens(v) + after; ts != [] && if v.Text? then ts[0] == String(v.s) else !ts[0].String?
  {}

  /**
   * JSONStringKey, from the tokens of a line; None for a line that is not valid JSON. A nested
   * member of the same name is never taken for the top-level one.
   */
  method JSONStringKey(tokens: Option<seq<Token>>, field: Bytes, ghost v: Json) returns (key: Option<Bytes>)
    requires tokens.Some? ==> tokens.value == Tokens(v)
    ensures key == if tokens.Some? then KeyIn(v, field) else None
  {
    if tokens.None? {
      return None;
    }
    var dec := new Decoder(tokens.value);
    var tok := dec.Next();
    if tok != Some(OpenObject) {
      return None;
    }
    ObjectTokens(v);
    ghost var left := v.members;
    while dec.More()
      invariant fresh(dec) && dec.rest == MemberTokens(left) + [CloseObject]
      invariant First(left, field) == First(v.members, field)
      decreases left
    {
      hide MemberTokens, Tokens;
      NextMember(left);
      ghost var more := MemberTokens(left.tail) + [CloseObject];
      var name := dec.Next();
      assert dec.rest == Tokens(left.value) + more;
      if name.value.String? && name.value.s == field {
        FirstToken(left.value, more);
        var value := dec.Next();
        if value.None? || !value.value.String? || value.value.s == [] {
          return None;
        }
        return Some(value.value.s);
      }
      var ok := SkipJSONValue(dec, left.value, more);
      if !ok {
        return None;
      }
      left := left.tail;
    }
    NoMoreMembers(left);
    return None;
  }
}
