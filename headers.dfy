/**
 * HTTP headers as Spring's HttpHeaders holds them: a multi-map from header
 * name to an ordered list of values whose keys compare ignoring case
 * (a LinkedCaseInsensitiveMap). The map is a list of entries; the pure
 * functions below give the meaning of HttpHeaders.add and HttpHeaders.set,
 * the class HttpHeaders is the mutable builder the controller fills in, and
 * CopyHeaders is the controller's copy loop.
 */
module Headers {
  import opened Wrappers
  import opened JavaText

  /** A header name with its values, in arrival order. */
  type Entry = (string, seq<string>)

  type HeaderList = seq<Entry>

  const ORIGINAL_IP := "X-Original-IP"

  /** No two entries share a name up to case, as in a case-insensitive map. */
  predicate Distinct(h: HeaderList) {
    forall i, j :: 0 <= i < j < |h| ==> !EqualsIgnoreCase(h[i].0, h[j].0)
  }

  /** Every value held under `name`, ignoring case: the values of each
      matching entry, in entry order and with their multiplicity. */
  function Values(h: HeaderList, name: string): seq<string> {
    if h == [] then []
    else (if EqualsIgnoreCase(h[0].0, name) then h[0].1 else []) + Values(h[1..], name)
  }

  /** The position of the first entry named `name`, ignoring case, or |h|. */
  function IndexOf(h: HeaderList, name: string): (i: nat)
    ensures i <= |h|
    ensures i < |h| ==> EqualsIgnoreCase(h[i].0, name)
    ensures forall j :: 0 <= j < i ==> !EqualsIgnoreCase(h[j].0, name)
  {
    if h == [] then 0
    else if EqualsIgnoreCase(h[0].0, name) then 0
    else 1 + IndexOf(h[1..], name)
  }

  /** HttpHeaders.get: the value list stored under `name`, or null. */
  function Get(h: HeaderList, name: string): Option<seq<string>> {
    var i := IndexOf(h, name);
    if i < |h| then Some(h[i].1) else None
  }

  /** HttpHeaders.add: append `value` to the entry already named `name`
      (keeping that entry's spelling), or start a new entry at the end. */
  function AddValue(h: HeaderList, name: string, value: string): HeaderList {
    var i := IndexOf(h, name);
    if i < |h| then h[i := (h[i].0, h[i].1 + [value])] else h + [(name, [value])]
  }

  /** `add(name, v)` for each v of `values` in turn. */
  function AddValues(h: HeaderList, name: string, values: seq<string>): HeaderList {
    if values == [] then h
    else AddValue(AddValues(h, name, values[..|values| - 1]), name, values[|values| - 1])
  }

  /** The controller's copy: AddValues for each entry of `src` in turn. */
  function CopyInto(h: HeaderList, src: HeaderList): HeaderList {
    if src == [] then h
    else
      var e := src[|src| - 1];
      AddValues(CopyInto(h, src[..|src| - 1]), e.0, e.1)
  }

  /** Every entry whose name is not `name`, ignoring case. */
  function Without(h: HeaderList, name: string): HeaderList {
    if h == [] then []
    else (if EqualsIgnoreCase(h[0].0, name) then [] else [h[0]]) + Without(h[1..], name)
  }

  /** HttpHeaders.set: `name` ends up with the single value `value`. An entry
      with exactly this spelling keeps its place; otherwise the entry goes to
      the end under the new spelling, dropping one that differs only in case. */
  function SetValue(h: HeaderList, name: string, value: string): HeaderList {
    var i := IndexOf(h, name);
    if i < |h| && h[i].0 == name then h[i := (name, [value])]
    else Without(h, name) + [(name, [value])]
  }

  /** The outbound headers: every inbound value copied, then X-Original-IP set. */
  function OutboundHeaders(src: HeaderList, clientIp: string): HeaderList {
    SetValue(CopyInto([], src), ORIGINAL_IP, clientIp)
  }

  // ------------------------------------------------------------ lemmas

  lemma {:induction false} ValuesAppend(a: HeaderList, b: HeaderList, name: string)
    ensures Values(a + b, name) == Values(a, name) + Values(b, name)
  {
    if a == [] {
      assert a + b == b;
    } else {
      assert (a + b)[1..] == a[1..] + b;
      ValuesAppend(a[1..], b, name);
    }
  }

  lemma {:induction false} ValuesNone(h: HeaderList, name: string)
    requires forall j :: 0 <= j < |h| ==> !EqualsIgnoreCase(h[j].0, name)
    ensures Values(h, name) == []
  {
    if h != [] {
      ValuesNone(h[1..], name);
    }
  }

  /** Replacing the values of one entry of a case-insensitive map changes
      what that entry's name maps to and nothing else. */
  lemma ValuesUpdate(h: HeaderList, i: nat, vs: seq<string>, name: string)
    requires Distinct(h) && i < |h|
    ensures Values(h[i := (h[i].0, vs)], name)
            == if EqualsIgnoreCase(h[i].0, name) then vs else Values(h, name)
  {
    var h' := h[i := (h[i].0, vs)];
    assert h == h[..i] + [h[i]] + h[i + 1..];
    assert h' == h[..i] + [(h[i].0, vs)] + h[i + 1..];
    ValuesAppend(h[..i] + [h[i]], h[i + 1..], name);
    ValuesAppend(h[..i], [h[i]], name);
    ValuesAppend(h[..i] + [(h[i].0, vs)], h[i + 1..], name);
    ValuesAppend(h[..i], [(h[i].0, vs)], name);
    assert Values([h[i]], name) == (if EqualsIgnoreCase(h[i].0, name) then h[i].1 else []) + Values([], name);
    assert Values([(h[i].0, vs)], name) == (if EqualsIgnoreCase(h[i].0, name) then vs else []) + Values([], name);
    if EqualsIgnoreCase(h[i].0, name) {
      ValuesNone(h[..i], name);
      ValuesNone(h[i + 1..], name);
    }
  }

  /** In a case-insensitive map the values under a present name are its entry's. */
  lemma ValuesAt(h: HeaderList, i: nat, name: string)
    requires Distinct(h) && i < |h| && EqualsIgnoreCase(h[i].0, name)
    ensures Values(h, name) == h[i].1
  {
    ValuesUpdate(h, i, h[i].1, name);
    assert h[i := (h[i].0, h[i].1)] == h;
  }

  /** HttpHeaders.get is null exactly when no entry has the name, ignoring
      case. Its list is always the leading part of the name's values (the
      first matching entry's), and all of them in a case-insensitive map;
      there, when no entry holds an empty list, it is null exactly when the
      name has no values. */
  lemma GetIsValues(h: HeaderList, name: string)
    ensures Get(h, name).None? <==> forall j :: 0 <= j < |h| ==> !EqualsIgnoreCase(h[j].0, name)
    ensures Get(h, name).GetOr([]) <= Values(h, name)
    ensures Distinct(h) ==> Get(h, name).GetOr([]) == Values(h, name)
    ensures Distinct(h) && (forall j :: 0 <= j < |h| ==> h[j].1 != [])
            ==> (Get(h, name).None? <==> Values(h, name) == [])
  {
  }

  /** add keeps the map case-insensitive and appends exactly one value under
      the names equal to `name`. */
  lemma AddValueSpec(h: HeaderList, name: string, value: string, key: string)
    requires Distinct(h)
    ensures Distinct(AddValue(h, name, value))
    ensures Values(AddValue(h, name, value), key)
            == Values(h, key) + if EqualsIgnoreCase(name, key) then [value] else []
  {
    var i := IndexOf(h, name);
    if i < |h| {
      ValuesUpdate(h, i, h[i].1 + [value], key);
      if EqualsIgnoreCase(name, key) {
        ValuesAt(h, i, key);
      }
    } else {
      ValuesAppend(h, [(name, [value])], key);
      assert Values([(name, [value])], key) == (if EqualsIgnoreCase(name, key) then [value] else []) + Values([], key);
    }
  }

  lemma {:induction false} AddValuesSpec(h: HeaderList, name: string, values: seq<string>, key: string)
    requires Distinct(h)
    ensures Distinct(AddValues(h, name, values))
    ensures Values(AddValues(h, name, values), key)
            == Values(h, key) + if EqualsIgnoreCase(name, key) then values else []
  {
    if values != [] {
      var init := values[..|values| - 1];
      AddValuesSpec(h, name, init, key);
      AddValueSpec(AddValues(h, name, init), name, values[|values| - 1], key);
      assert init + [values[|values| - 1]] == values;
    }
  }

  /** Copying appends, under every name, exactly the source's values for it. */
  lemma {:induction false} CopyIntoSpec(h: HeaderList, src: HeaderList, key: string)
    requires Distinct(h)
    ensures Distinct(CopyInto(h, src))
    ensures Values(CopyInto(h, src), key) == Values(h, key) + Values(src, key)
  {
    if src != [] {
      var init := src[..|src| - 1];
      var e := src[|src| - 1];
      CopyIntoSpec(h, init, key);
      AddValuesSpec(CopyInto(h, init), e.0, e.1, key);
      assert init + [e] == src;
      ValuesAppend(init, [e], key);
      assert Values([e], key) == (if EqualsIgnoreCase(e.0, key) then e.1 else []) + Values([], key);
    }
  }

  /** Without keeps only entries of the original list, none of them named `name`. */
  lemma {:induction false} WithoutFrom(h: HeaderList, name: string)
    ensures forall e :: e in Without(h, name) ==> e in h && !EqualsIgnoreCase(e.0, name)
  {
    if h != [] {
      WithoutFrom(h[1..], name);
      assert Without(h, name) == (if EqualsIgnoreCase(h[0].0, name) then [] else [h[0]]) + Without(h[1..], name);
    }
  }

  lemma {:induction false} WithoutValues(h: HeaderList, name: string, key: string)
    ensures Values(Without(h, name), key) == if EqualsIgnoreCase(name, key) then [] else Values(h, key)
  {
    if h != [] {
      WithoutValues(h[1..], name, key);
      var head := if EqualsIgnoreCase(h[0].0, name) then [] else [h[0]];
      assert Without(h, name) == head + Without(h[1..], name);
      ValuesAppend(head, Without(h[1..], name), key);
      assert Values(head, key) == if head == [] then [] else (if EqualsIgnoreCase(h[0].0, key) then h[0].1 else []) + Values([], key);
    }
  }

  lemma {:induction false} WithoutDistinct(h: HeaderList, name: string)
    requires Distinct(h)
    ensures Distinct(Without(h, name))
  {
    if h != [] {
      var w := Without(h[1..], name);
      assert Distinct(h[1..]) by {
        assert forall j :: 0 <= j < |h[1..]| ==> h[1..][j] == h[j + 1];
      }
      WithoutDistinct(h[1..], name);
      WithoutFrom(h[1..], name);
      assert forall j :: 0 <= j < |w| ==> !EqualsIgnoreCase(h[0].0, w[j].0) by {
        forall j | 0 <= j < |w| ensures !EqualsIgnoreCase(h[0].0, w[j].0) {
          assert w[j] in w;
          var m :| 0 <= m < |h[1..]| && h[1..][m] == w[j];
          assert h[m + 1] == w[j];
        }
      }
      assert Without(h, name) == (if EqualsIgnoreCase(h[0].0, name) then [] else [h[0]]) + w;
    }
  }

  /** A new name appended to a case-insensitive map keeps it case-insensitive. */
  lemma DistinctAppend(h: HeaderList, e: Entry)
    requires Distinct(h)
    requires forall j :: 0 <= j < |h| ==> !EqualsIgnoreCase(h[j].0, e.0)
    ensures Distinct(h + [e])
  {
  }

  /** set keeps the map case-insensitive, gives `name` the one value `value`
      and leaves every other name as it was. */
  lemma SetValueSpec(h: HeaderList, name: string, value: string, key: string)
    requires Distinct(h)
    ensures Distinct(SetValue(h, name, value))
    ensures Values(SetValue(h, name, value), key)
            == if EqualsIgnoreCase(name, key) then [value] else Values(h, key)
  {
    var i := IndexOf(h, name);
    if i < |h| && h[i].0 == name {
      ValuesUpdate(h, i, [value], key);
      assert h[i := (name, [value])] == h[i := (h[i].0, [value])];
    } else {
      var w := Without(h, name);
      WithoutValues(h, name, key);
      WithoutDistinct(h, name);
      WithoutFrom(h, name);
      assert forall j :: 0 <= j < |w| ==> w[j] in w;
      DistinctAppend(w, (name, [value]));
      ValuesAppend(w, [(name, [value])], key);
      assert Values([(name, [value])], key) == (if EqualsIgnoreCase(name, key) then [value] else []) + Values([], key);
    }
  }

  /** The headers the controller sends: under X-Original-IP (any case) exactly
      the resolved client, under every other name exactly the inbound values,
      in order and with their multiplicity; no name appears twice. */
  lemma OutboundHeadersSpec(src: HeaderList, clientIp: string, key: string)
    ensures Distinct(OutboundHeaders(src, clientIp))
    ensures Values(OutboundHeaders(src, clientIp), key)
            == if EqualsIgnoreCase(key, ORIGINAL_IP) then [clientIp] else Values(src, key)
    ensures Get(OutboundHeaders(src, clientIp), ORIGINAL_IP) == Some([clientIp])
  {
    CopyIntoSpec([], src, key);
    assert Values([], key) == [];
    var copied := CopyInto([], src);
    SetValueSpec(copied, ORIGINAL_IP, clientIp, key);
    SetValueSpec(copied, ORIGINAL_IP, clientIp, ORIGINAL_IP);
    GetIsValues(OutboundHeaders(src, clientIp), ORIGINAL_IP);
    var out := OutboundHeaders(src, clientIp);
    var i := IndexOf(out, ORIGINAL_IP);
    if i >= |out| {
      ValuesNone(out, ORIGINAL_IP);
    }
  }

  // ------------------------------------------------------- the builder

  /** The mutable HttpHeaders the request spec's `headers(...)` callback fills in. */
  class HttpHeaders {
    var entries: HeaderList

    ghost predicate Valid()
      reads this
    {
      Distinct(entries)
    }

    constructor ()
      ensures Valid() && entries == []
    {
      entries := [];
    }

    /** HttpHeaders.add */
    method Add(name: string, value: string)
      requires Valid()
      modifies this
      ensures Valid()
      ensures entries == AddValue(old(entries), name, value)
    {
      AddValueSpec(entries, name, value, name);
      entries := AddValue(entries, name, value);
    }

    /** HttpHeaders.set */
    method Set(name: string, value: string)
      requires Valid()
      modifies this
      ensures Valid()
      ensures entries == SetValue(old(entries), name, value)
    {
      SetValueSpec(entries, name, value, name);
      entries := SetValue(entries, name, value);
    }
  }

  /** The `headers(...)` callback: every value of every inbound entry is
      added in order, then X-Original-IP is set to the resolved client. */
  method CopyHeaders(src: HeaderList, clientIp: string) returns (out: HeaderList)
    ensures out == OutboundHeaders(src, clientIp)
  {
    var headers := new HttpHeaders();
    var i := 0;
    while i < |src|
      invariant 0 <= i <= |src|
      invariant headers.Valid()
      invariant headers.entries == CopyInto([], src[..i])
    {
      var (key, values) := src[i];
      var j := 0;
      while j < |values|
        invariant 0 <= j <= |values|
        invariant headers.Valid()
        invariant headers.entries == AddValues(CopyInto([], src[..i]), key, values[..j])
      {
        headers.Add(key, values[j]);
        assert values[..j + 1][..j] == values[..j];
        j := j + 1;
      }
      assert values[..j] == values;
      assert src[..i + 1][..i] == src[..i];
      i := i + 1;
    }
    assert src[..i] == src;
    headers.Set(ORIGINAL_IP, clientIp);
    out := headers.entries;
  }
}
