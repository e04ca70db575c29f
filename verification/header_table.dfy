/** The mailer's header table: a PHP ordered array from header name to value.
    Writing an existing name overwrites its value where it stands; writing a new
    name appends it. Rendering joins `name: value` lines with CRLF after each and
    then applies `rtrim` to the whole block. */
module HeaderTable {
  import opened PhpStrings

  datatype Header = Header(name: Bytes, value: Bytes)

  /** Entries in insertion order. */
  type Table = seq<Header>

  /** The names in insertion order. */
  function Names(t: Table): (ns: seq<Bytes>)
    ensures |ns| == |t|
    ensures forall i {:trigger ns[i]} | 0 <= i < |t| :: ns[i] == t[i].name
  {
    if |t| == 0 then [] else [t[0].name] + Names(t[1..])
  }

  /** No name occurs twice. */
  predicate Distinct(ns: seq<Bytes>) {
    forall i, j | 0 <= i < j < |ns| :: ns[i] != ns[j]
  }

  /** PHP array keys are unique. */
  predicate UniqueNames(t: Table) {
    Distinct(Names(t))
  }

  lemma NamesAppend(t: Table, h: Header)
    ensures Names(t + [h]) == Names(t) + [h.name]
  {
    var a, b := Names(t + [h]), Names(t) + [h.name];
    assert |a| == |b|;
    forall i | 0 <= i < |a| ensures a[i] == b[i] {
      assert (t + [h])[i] == if i < |t| then t[i] else h;
    }
  }

  lemma NamesTail(t: Table)
    requires |t| > 0
    ensures Names(t[1..]) == Names(t)[1..]
  {
  }

  lemma UniqueTail(t: Table)
    requires |t| > 0 && UniqueNames(t)
    ensures UniqueNames(t[1..])
  {
    NamesTail(t);
  }

  lemma ConsSnoc(t: Table, h: Header)
    requires |t| > 0
    ensures [t[0]] + (t[1..] + [h]) == t + [h]
  {
  }

  /** The value stored under `name`, if any. */
  function Lookup(t: Table, name: Bytes): (r: Option<Bytes>)
    ensures r.None? <==> name !in Names(t)
  {
    if |t| == 0 then None
    else if t[0].name == name then Some(t[0].value)
    else Lookup(t[1..], name)
  }

  /** `$headers[$name] = $value`: overwrite in place, or append at the end. */
  function Set(t: Table, name: Bytes, value: Bytes): (r: Table)
    ensures Lookup(r, name) == Some(value)
    ensures |t| <= |r|
  {
    if |t| == 0 then [Header(name, value)]
    else if t[0].name == name then [Header(name, value)] + t[1..]
    else
      var r := [t[0]] + Set(t[1..], name, value);
      assert r[1..] == Set(t[1..], name, value);
      r
  }

  /** A name that is not present yet is appended at the end. */
  lemma {:induction false} SetAppends(t: Table, name: Bytes, value: Bytes)
    requires name !in Names(t)
    ensures Set(t, name, value) == t + [Header(name, value)]
    decreases |t|
  {
    if |t| > 0 {
      assert t[0].name == Names(t)[0];
      NamesTail(t);
      SetAppends(t[1..], name, value);
      ConsSnoc(t, Header(name, value));
    }
  }

  /** Writing one name leaves every other entry, and so every other lookup,
      as it was; writing a present name keeps the order of names. */
  lemma {:induction false} SetFrame(t: Table, name: Bytes, value: Bytes)
    ensures forall n | n != name :: Lookup(Set(t, name, value), n) == Lookup(t, n)
    ensures name in Names(t) ==> Names(Set(t, name, value)) == Names(t)
    ensures forall i | 0 <= i < |t| && t[i].name != name :: Set(t, name, value)[i] == t[i]
    decreases |t|
  {
    var r := Set(t, name, value);
    if |t| > 0 && t[0].name == name {
      assert r[1..] == t[1..];
    } else if |t| > 0 {
      SetFrame(t[1..], name, value);
      assert r[1..] == Set(t[1..], name, value);
    }
  }

  /** Writing keeps names unique. */
  lemma SetUnique(t: Table, name: Bytes, value: Bytes)
    requires UniqueNames(t)
    ensures UniqueNames(Set(t, name, value))
  {
    SetFrame(t, name, value);
    if name !in Names(t) {
      SetAppends(t, name, value);
      NamesAppend(t, Header(name, value));
    }
  }

  /** Where a write leaves the entries: the names gain the written one at the
      end only when it was absent, and every entry under another name keeps its
      position and value. */
  lemma {:induction false} SetLayout(t: Table, name: Bytes, value: Bytes)
    ensures Names(Set(t, name, value)) == Names(t) + (if name in Names(t) then [] else [name])
    ensures forall i | 0 <= i < |t| && t[i].name != name :: Set(t, name, value)[i] == t[i]
  {
    SetFrame(t, name, value);
    if name !in Names(t) {
      SetAppends(t, name, value);
      NamesAppend(t, Header(name, value));
    }
  }

  /** A write that happens only when `on` holds. */
  function SetIf(t: Table, on: bool, name: Bytes, value: Bytes): Table {
    if on then Set(t, name, value) else t
  }

  /** A conditional write appends only a new name, leaves the entries under
      other names in place and the presence of other names as it was. */
  lemma SetIfLayout(t: Table, on: bool, name: Bytes, value: Bytes)
    ensures Names(SetIf(t, on, name, value)) == Names(t) + (if on && name !in Names(t) then [name] else [])
    ensures forall i | 0 <= i < |t| && t[i].name != name :: SetIf(t, on, name, value)[i] == t[i]
    ensures name !in Names(t) ==> SetIf(t, on, name, value) == t + (if on then [Header(name, value)] else [])
    ensures forall n | n != name :: n in Names(SetIf(t, on, name, value)) <==> n in Names(t)
  {
    if on {
      SetLayout(t, name, value);
      if name !in Names(t) { SetAppends(t, name, value); }
    } else {
      assert t + [] == t;
      assert Names(t) + [] == Names(t);
    }
  }

  /** In a table with unique names, writing a name that is present replaces
      exactly the entry at its position. */
  lemma {:induction false} SetInPlace(t: Table, i: int, value: Bytes)
    requires UniqueNames(t)
    requires 0 <= i < |t|
    ensures Set(t, t[i].name, value) == t[i := Header(t[i].name, value)]
    decreases |t|
  {
    if i > 0 {
      var ns := Names(t);
      assert ns[0] != ns[i];
      UniqueTail(t);
      SetInPlace(t[1..], i - 1, value);
      assert t[1..][i - 1 := Header(t[i].name, value)] == t[i := Header(t[i].name, value)][1..];
    }
  }

  /** Writing the value a name already holds changes nothing. */
  lemma {:induction false} SetExisting(t: Table, name: Bytes, value: Bytes)
    requires Lookup(t, name) == Some(value)
    ensures Set(t, name, value) == t
    decreases |t|
  {
    if |t| > 0 && t[0].name != name {
      SetExisting(t[1..], name, value);
    } else if |t| > 0 {
      assert t == [Header(name, value)] + t[1..];
    }
  }

  // ---------------------------------------------------------------------------
  // Rendering
  // ---------------------------------------------------------------------------

  /** One rendered header line, CRLF included. */
  function Line(h: Header): Bytes {
    h.name + ": " + h.value + CRLF
  }

  /** The block before trimming: every line in insertion order. */
  function Lines(t: Table): Bytes {
    if |t| == 0 then [] else Lines(t[..|t| - 1]) + Line(t[|t| - 1])
  }

  lemma {:induction false} LinesAppend(a: Table, b: Table)
    ensures Lines(a + b) == Lines(a) + Lines(b)
    decreases |b|
  {
    if |b| == 0 {
      assert a + b == a;
    } else {
      var ab, init, last := a + b, b[..|b| - 1], b[|b| - 1];
      assert ab[..|ab| - 1] == a + init;
      assert ab[|ab| - 1] == last;
      LinesAppend(a, init);
      assert Lines(ab) == Lines(a + init) + Line(last);
      assert Lines(b) == Lines(init) + Line(last);
    }
  }

  /** The rendered header block: the lines with all trailing whitespace removed. */
  function Render(t: Table): Bytes {
    RTrim(Lines(t))
  }

  /** Only the last line is affected by the trimming, since every line has a
      colon; the block never ends in whitespace or CRLF, and an empty table
      renders as the empty string. */
  lemma RenderShape(t: Table)
    ensures |t| == 0 ==> Render(t) == []
    ensures |t| > 0 ==> Render(t) == Lines(t[..|t| - 1]) + RTrim(Line(t[|t| - 1]))
    ensures |Render(t)| > 0 ==> !IsTrimmable(Render(t)[|Render(t)| - 1])
  {
    if |t| > 0 {
      var last := t[|t| - 1];
      var a, b := Lines(t[..|t| - 1]), Line(last);
      assert Lines(t) == a + b;
      assert b[|last.name|] == ':';
      RTrimAppend(a, b, |last.name|);
    }
  }

  /** When the last value ends in a byte that is not trimmable, the trimming
      removes exactly the final CRLF. */
  lemma RenderLast(t: Table)
    requires |t| > 0
    requires var v := t[|t| - 1].value; |v| > 0 && !IsTrimmable(v[|v| - 1])
    ensures var last := t[|t| - 1];
            Render(t) == Lines(t[..|t| - 1]) + last.name + ": " + last.value
  {
    RenderShape(t);
    var last := t[|t| - 1];
    RTrimCrlf(last.name + ": " + last.value);
  }

  /** The renderer as the source writes it: a loop appending one line per
      entry, then `rtrim`. */
  method EncodeHeaders(t: Table) returns (r: Bytes)
    ensures r == Render(t)
    ensures |r| <= |Lines(t)| && r == Lines(t)[..|r|]
  {
    var headers: Bytes := [];
    var i := 0;
    while i < |t|
      invariant 0 <= i <= |t|
      invariant headers == Lines(t[..i])
    {
      assert t[..i + 1][..i] == t[..i];
      headers := headers + Line(t[i]);
      i := i + 1;
    }
    assert t[..|t|] == t;
    r := RTrim(headers);
  }

  /** The untrimmed lines start with the first entry's line. */
  lemma {:induction false} LinesFirst(t: Table)
    requires |t| > 0
    ensures Lines(t) == Line(t[0]) + Lines(t[1..])
  {
    assert t == [t[0]] + t[1..];
    LinesAppend([t[0]], t[1..]);
    assert [t[0]][..0] == [];
  }

  /** A table that starts with `prefix` and has more entries renders as the
      untrimmed lines of `prefix` followed by the rendered rest. */
  lemma {:induction false} RenderPrefix(prefix: Table, rest: Table)
    requires |rest| > 0
    ensures Render(prefix + rest) == Lines(prefix) + Render(rest)
  {
    LinesFirst(rest);
    var a, b := Lines(prefix), Lines(rest);
    var k := |rest[0].name|;
    assert b[k] == ':';
    LinesAppend(prefix, rest);
    RTrimAppend(a, b, k);
  }

  /** Rendering a non-empty table keeps the first name and its colon, however
      much the trimming removes. */
  lemma {:induction false} RenderOpensWithFirstName(t: Table)
    requires |t| > 0
    ensures |t[0].name| + 1 <= |Render(t)|
    ensures Render(t)[..|t[0].name| + 1] == t[0].name + ":"
  {
    LinesFirst(t);
    var s := Lines(t);
    var k := |t[0].name|;
    assert s[k] == ':';
    assert s[..k + 1] == t[0].name + ":";
    RTrimKeeps(s, k);
  }

  /** The untrimmed lines of a two-entry table. */
  lemma {:induction false} LinesOfTwo(t: Table)
    requires |t| == 2
    ensures Lines(t) == Line(t[0]) + Line(t[1])
  {
    LinesFirst(t);
    LinesFirst(t[1..]);
    assert t[1..][1..] == [];
  }

  /** The rendered block starts with the untrimmed lines of the first `n`
      entries and the name and colon of the next one. */
  lemma {:induction false} RenderOpensWith(t: Table, n: int)
    requires 0 <= n < |t|
    ensures var opening := Lines(t[..n]) + t[n].name + ":";
            |opening| <= |Render(t)| && Render(t)[..|opening|] == opening
  {
    var front, rest := t[..n], t[n..];
    assert t == front + rest;
    RenderPrefix(front, rest);
    RenderOpensWithFirstName(rest);
    var a, b := Lines(front), Render(rest);
    var k := |rest[0].name| + 1;
    assert b[..k] == t[n].name + ":";
    assert (a + b)[..|a| + k] == a + b[..k];
  }
}
