/** The `Stripe-Signature` header: its grammar, the parsing loop, and the two
    proved equal. */
module StripeHeader {
  import opened Machine
  import opened Outcomes
  import opened Text
  import opened Decimal
  import opened Events

  predicate HasEquals(part: string) {
    '=' in part
  }

  function Key(part: string): string
    requires HasEquals(part)
  {
    Trim(SplitOnce(part, '=').value.0)
  }

  function FieldValue(part: string): string
    requires HasEquals(part)
  {
    Trim(SplitOnce(part, '=').value.1)
  }

  predicate HasKey(part: string, key: string) {
    HasEquals(part) && Key(part) == key
  }

  function ValueIf(part: string, key: string): seq<string> {
    if HasKey(part, key) then [FieldValue(part)] else []
  }

  /** The trimmed values, in order, of the parts with the given trimmed key. */
  function Select(parts: seq<string>, key: string): seq<string> {
    if parts == [] then []
    else ValueIf(parts[0], key) + Select(parts[1..], key)
  }

  predicate AllHaveEquals(parts: seq<string>) {
    forall i :: 0 <= i < |parts| ==> HasEquals(parts[i])
  }

  /** The grammar of a header's comma-separated parts: every part is key=value,
      one of them is the timestamp, and at least one is a v1 signature. */
  predicate WellFormed(parts: seq<string>, t: I64, signatures: seq<string>) {
    && AllHaveEquals(parts)
    && |Select(parts, "t")| == 1
    && IsNumeral(Select(parts, "t")[0])
    && NumeralValue(Select(parts, "t")[0]) == t as int
    && Select(parts, "v1") == signatures != []
  }

  type Header = (I64, seq<string>)

  /** What the grammar makes of a header. */
  function Parsed(header: string): Result<Header, VerifyError> {
    var parts := Split(header, ',');
    var times, signatures := Select(parts, "t"), Select(parts, "v1");
    if IsBlank(header) then Err(MissingSignature)
    else if AllHaveEquals(parts) && |times| == 1 && ParseI64(times[0]).Some? && signatures != [] then
      Ok((ParseI64(times[0]).value, signatures))
    else Err(MalformedSignature)
  }

  /** Sound and complete: exactly the grammatical headers parse, to exactly the
      timestamp and signatures they contain. */
  lemma ParsedExact(header: string, t: I64, signatures: seq<string>)
    ensures Parsed(header) == Ok((t, signatures)) <==> WellFormed(Split(header, ','), t, signatures)
    ensures Parsed(header) == Err(MissingSignature) <==> IsBlank(header)
  {
    var parts := Split(header, ',');
    if |Select(parts, "t")| == 1 {
      ParseExact(Select(parts, "t")[0]);
    }
    if AllHaveEquals(parts) {
      NotBlank(parts);
    }
  }

  lemma NotBlank(parts: seq<string>)
    requires parts != [] && HasEquals(parts[0])
    ensures !IsBlank(Join(parts, ','))
  {
  }

  lemma {:induction false} SelectAppend(x: seq<string>, y: seq<string>, key: string)
    ensures Select(x + y, key) == Select(x, key) + Select(y, key)
  {
    hide ValueIf;
    if x == [] {
      assert x + y == y;
    } else {
      assert (x + y)[1..] == x[1..] + y;
      SelectAppend(x[1..], y, key);
      Associative(ValueIf(x[0], key), Select(x[1..], key), Select(y, key));
    }
  }

  lemma Associative(a: seq<string>, b: seq<string>, c: seq<string>)
    ensures a + (b + c) == a + b + c
  {
  }

  lemma SelectOne(part: string, key: string)
    ensures Select([part], key) == if HasKey(part, key) then [FieldValue(part)] else []
  {
  }

  /** Splitting the parts at position i. */
  lemma SelectAround(parts: seq<string>, i: nat, key: string)
    requires i < |parts|
    ensures Select(parts[..i + 1], key) == Select(parts[..i], key) + Select([parts[i]], key)
    ensures Select(parts, key) == Select(parts[..i + 1], key) + Select(parts[i + 1..], key)
  {
    hide Select;
    assert parts[..i + 1] == parts[..i] + [parts[i]];
    assert parts == parts[..i + 1] + parts[i + 1..];
    SelectAppend(parts[..i], [parts[i]], key);
    SelectAppend(parts[..i + 1], parts[i + 1..], key);
  }

  lemma PartKeys(part: string)
    requires HasEquals(part)
    ensures Select([part], "t") == if Key(part) == "t" then [FieldValue(part)] else []
    ensures Select([part], "v1") == if Key(part) == "v1" then [FieldValue(part)] else []
  {
  }

  lemma SelectNone(key: string)
    ensures Select([], key) == []
  {
  }

  /** The loop of the source, with its early exits. */
  method ParseSignatureHeader(header: string) returns (r: Result<Header, VerifyError>)
    ensures r == Parsed(header)
  {
    hide Trim, HasKey, IsBlank, IsSpace, ParseI64, Select, Join;
    TrimEmptyMeansBlank(header);
    if Trim(header) == "" {
      return Err(MissingSignature);
    }
    var timestamp: Option<I64> := None;
    var v1: seq<string> := [];
    var parts := Split(header, ',');
    SelectNone("t");
    SelectNone("v1");
    for i := 0 to |parts|
      invariant AllHaveEquals(parts[..i])
      invariant v1 == Select(parts[..i], "v1")
      invariant timestamp == None ==> Select(parts[..i], "t") == []
      invariant timestamp.Some? ==>
                  |Select(parts[..i], "t")| == 1 && ParseI64(Select(parts[..i], "t")[0]) == timestamp
    {
      var part := parts[i];
      var pair := SplitOnce(part, '=');
      if pair == None {
        return Err(MalformedSignature);
      }
      var key, value := Trim(pair.value.0), Trim(pair.value.1);
      SelectAround(parts, i, "t");
      SelectAround(parts, i, "v1");
      PartKeys(part);
      if key == "t" {
        if timestamp.Some? {
          return Err(MalformedSignature);
        }
        var parsed := ParseI64(value);
        if parsed == None {
          assert Select(parts, "t")[0] == value;
          return Err(MalformedSignature);
        }
        timestamp := parsed;
      } else if key == "v1" {
        v1 := v1 + [value];
      }
      assert parts[..i + 1] == parts[..i] + [part];
    }
    assert parts[..|parts|] == parts;
    if timestamp == None || v1 == [] {
      return Err(MalformedSignature);
    }
    return Ok((timestamp.value, v1));
  }

  // ---------------------------------------------------------------------
  // Rendering.
  // ---------------------------------------------------------------------

  /** One key=value part with blank padding around key and value. */
  datatype Entry = Entry(key: string, value: string, pad0: string, pad1: string, pad2: string, pad3: string)
  {
    predicate Valid() {
      && IsTrimmed(key) && IsTrimmed(value)
      && ',' !in key && '=' !in key && ',' !in value
      && IsBlank(pad0) && IsBlank(pad1) && IsBlank(pad2) && IsBlank(pad3)
    }

    function Render(): string {
      pad0 + key + pad1 + ['='] + (pad2 + value + pad3)
    }
  }

  function RenderAll(entries: seq<Entry>): (parts: seq<string>)
    ensures |parts| == |entries|
    ensures forall i :: 0 <= i < |entries| ==> parts[i] == entries[i].Render()
  {
    seq(|entries|, i requires 0 <= i < |entries| => entries[i].Render())
  }

  function RenderHeader(entries: seq<Entry>): string {
    Join(RenderAll(entries), ',')
  }

  /** The values the entries carry under a key, in order. */
  function ValuesOf(entries: seq<Entry>, key: string): seq<string> {
    if entries == [] then []
    else (if entries[0].key == key then [entries[0].value] else []) + ValuesOf(entries[1..], key)
  }

  lemma BlankHasNoDelimiter(s: string)
    requires IsBlank(s)
    ensures ',' !in s && '=' !in s
  {
  }

  lemma RenderedPart(entry: Entry)
    requires entry.Valid()
    ensures ',' !in entry.Render()
    ensures HasEquals(entry.Render())
    ensures Key(entry.Render()) == entry.key && FieldValue(entry.Render()) == entry.value
  {
    BlankHasNoDelimiter(entry.pad0);
    BlankHasNoDelimiter(entry.pad1);
    BlankHasNoDelimiter(entry.pad2);
    BlankHasNoDelimiter(entry.pad3);
    SplitOnceOf(entry.pad0 + entry.key + entry.pad1, entry.pad2 + entry.value + entry.pad3, '=');
    TrimPadded(entry.pad0, entry.key, entry.pad1);
    TrimPadded(entry.pad2, entry.value, entry.pad3);
  }

  lemma {:induction false} RenderedSelect(entries: seq<Entry>, key: string)
    requires forall i :: 0 <= i < |entries| ==> entries[i].Valid()
    ensures Select(RenderAll(entries), key) == ValuesOf(entries, key)
  {
    if entries != [] {
      RenderedPart(entries[0]);
      assert RenderAll(entries)[1..] == RenderAll(entries[1..]);
      RenderedSelect(entries[1..], key);
    }
  }

  /** Comma-free parts in the grammar parse once joined. */
  lemma JoinedPartsParse(parts: seq<string>, t: I64, signatures: seq<string>)
    requires |parts| > 0 && forall i :: 0 <= i < |parts| ==> ',' !in parts[i]
    requires WellFormed(parts, t, signatures)
    ensures Parsed(Join(parts, ',')) == Ok((t, signatures))
  {
    hide Parsed, WellFormed, Join;
    SplitJoin(parts, ',');
    ParsedExact(Join(parts, ','), t, signatures);
  }

  lemma RenderedParts(entries: seq<Entry>)
    requires forall i :: 0 <= i < |entries| ==> entries[i].Valid()
    ensures AllHaveEquals(RenderAll(entries))
    ensures forall i :: 0 <= i < |entries| ==> ',' !in RenderAll(entries)[i]
  {
  }

  /** Rendering any entries, unknown schemes and padding included, with one
      timestamp and some signatures, parses back to that timestamp and those
      signatures in order. */
  lemma RenderedHeaderParses(entries: seq<Entry>, t: I64, signatures: seq<string>)
    requires forall i :: 0 <= i < |entries| ==> entries[i].Valid()
    requires ValuesOf(entries, "t") == [ShowInt(t as int)]
    requires ValuesOf(entries, "v1") == signatures != []
    ensures Parsed(RenderHeader(entries)) == Ok((t, signatures))
  {
    hide Select, AllHaveEquals, Parsed, IsNumeral, NumeralValue, Join, ShowInt;
    assert entries != [] by {
      assert ValuesOf([], "v1") == [];
    }
    hide ValuesOf;
    RenderedParts(entries);
    RenderedSelect(entries, "t");
    RenderedSelect(entries, "v1");
    ShowIntNumeral(t as int);
    JoinedPartsParse(RenderAll(entries), t, signatures);
  }

  lemma TwoEntries(x: Entry, y: Entry, key: string)
    ensures ValuesOf([x, y], key) ==
            (if x.key == key then [x.value] else []) + (if y.key == key then [y.value] else [])
    ensures RenderHeader([x, y]) == x.Render() + [','] + y.Render()
  {
    assert [x, y][1..] == [y];
    assert ValuesOf([y], key) == if y.key == key then [y.value] else [];
    assert RenderAll([x, y]) == [x.Render(), y.Render()];
    assert [x.Render(), y.Render()][1..] == [y.Render()];
    assert Join([y.Render()], ',') == y.Render();
  }

  /** Spaces around keys, values and the comma are of no account. */
  lemma HeaderLiteral()
    ensures Parsed("t = 1 , v1 = ab") == Ok((1, ["ab"]))
  {
    var time := Entry("t", "1", "", " ", " ", " ");
    var signature := Entry("v1", "ab", " ", " ", " ", "");
    TwoEntries(time, signature, "t");
    TwoEntries(time, signature, "v1");
    hide Parsed, ShowNat, ValuesOf, RenderHeader;
    ShowNatStep(0, 1);
    RenderedHeaderParses([time, signature], 1, ["ab"]);
    assert time.Render() + [','] + signature.Render() == "t = 1 , v1 = ab";
  }

  // ---------------------------------------------------------------------
  // Order and extra parts.
  // ---------------------------------------------------------------------

  /** The selected values depend on which parts there are, not on their order. */
  lemma {:induction false} SelectPermuted(x: seq<string>, y: seq<string>, key: string)
    requires multiset(x) == multiset(y)
    ensures multiset(Select(x, key)) == multiset(Select(y, key))
  {
    hide Select;
    if x == [] {
      assert |multiset(x)| == |multiset(y)|;
    } else {
      assert x[0] in multiset(y);
      var j :| 0 <= j < |y| && y[j] == x[0];
      var y1, y2 := y[..j], y[j + 1..];
      WithoutOne(x, y, j);
      SelectPermuted(x[1..], y1 + y2, key);
      assert x == [x[0]] + x[1..] && y == y1 + ([x[0]] + y2);
      SelectAppend([x[0]], x[1..], key);
      SelectAppend(y1, [x[0]] + y2, key);
      SelectAppend([x[0]], y2, key);
      SelectAppend(y1, y2, key);
    }
  }

  lemma WithoutOne<T>(x: seq<T>, y: seq<T>, j: nat)
    requires x != [] && j < |y| && y[j] == x[0]
    requires multiset(x) == multiset(y)
    ensures multiset(x[1..]) == multiset(y[..j] + y[j + 1..])
  {
    assert x == [x[0]] + x[1..];
    MultisetWithout(y, j);
    Cancel(x[0], multiset(x[1..]), multiset(y[..j] + y[j + 1..]));
  }

  lemma Cancel<T>(e: T, a: multiset<T>, b: multiset<T>)
    requires multiset{e} + a == multiset{e} + b
    ensures a == b
  {
    assert a == (multiset{e} + a) - multiset{e};
    assert b == (multiset{e} + b) - multiset{e};
  }

  lemma MultisetWithout<T>(y: seq<T>, j: nat)
    requires j < |y|
    ensures multiset(y) == multiset{y[j]} + multiset(y[..j] + y[j + 1..])
  {
    assert y == y[..j] + ([y[j]] + y[j + 1..]);
    assert multiset([y[j]] + y[j + 1..]) == multiset{y[j]} + multiset(y[j + 1..]);
  }

  lemma SingletonFromMultiset(x: seq<string>, y: seq<string>)
    requires multiset(x) == multiset(y) && |x| == 1
    ensures y == x
  {
    assert |multiset(y)| == 1;
    assert y[0] in multiset(x);
  }

  /** Permuting the parts of an accepted header permutes its signatures and
      nothing else. */
  lemma PermutedPartsParse(header: string, header': string, t: I64, signatures: seq<string>)
    requires multiset(Split(header, ',')) == multiset(Split(header', ','))
    requires Parsed(header) == Ok((t, signatures))
    ensures Parsed(header').Ok? && Parsed(header').value.0 == t
    ensures multiset(Parsed(header').value.1) == multiset(signatures)
  {
    var parts, parts' := Split(header, ','), Split(header', ',');
    ParsedExact(header, t, signatures);
    SelectPermuted(parts, parts', "t");
    SelectPermuted(parts, parts', "v1");
    SingletonFromMultiset(Select(parts, "t"), Select(parts', "t"));
    forall i | 0 <= i < |parts'|
      ensures HasEquals(parts'[i])
    {
      assert parts'[i] in multiset(parts);
    }
    assert Select(parts', "v1") != [] by {
      assert signatures[0] in multiset(Select(parts', "v1"));
    }
    ParsedExact(header', t, Select(parts', "v1"));
  }

  lemma JoinHasSeparator(parts: seq<string>)
    requires |parts| > 1
    ensures ',' in Join(parts, ',')
  {
  }

  /** A blank header has a single part. */
  lemma BlankIsOnePart(header: string)
    requires IsBlank(header)
    ensures Split(header, ',') == [header]
  {
    var parts := Split(header, ',');
    BlankHasNoDelimiter(header);
    if |parts| > 1 {
      JoinHasSeparator(parts);
    }
  }

  lemma PermutedBlank(header: string, header': string)
    requires multiset(Split(header, ',')) == multiset(Split(header', ',')) && IsBlank(header)
    ensures header' == header
  {
    BlankIsOnePart(header);
    hide Split, IsBlank;
    SingletonFromMultiset(Split(header, ','), Split(header', ','));
    assert Join(Split(header', ','), ',') == header';
  }

  /** Permuting the parts of a rejected header keeps its error. */
  lemma PermutedPartsFail(header: string, header': string)
    requires multiset(Split(header, ',')) == multiset(Split(header', ','))
    requires Parsed(header).Err?
    ensures Parsed(header') == Parsed(header)
  {
    hide Parsed, Split, IsBlank;
    ErrorsOf(header);
    ErrorsOf(header');
    if Parsed(header').Ok? {
      PermutedPartsParse(header', header, Parsed(header').value.0, Parsed(header').value.1);
    }
    if IsBlank(header) {
      PermutedBlank(header, header');
    }
    if IsBlank(header') {
      PermutedBlank(header', header);
    }
  }

  lemma ErrorsOf(header: string)
    ensures Parsed(header).Err? ==>
              Parsed(header) == Err(if IsBlank(header) then MissingSignature else MalformedSignature)
    ensures IsBlank(header) ==> Parsed(header).Err?
  {
  }

  lemma SplitAppended(header: string, part: string)
    requires ',' !in part
    ensures Split(header + [','] + part, ',') == Split(header, ',') + [part]
  {
    JoinAppend(Split(header, ','), [part], ',');
    SplitJoin(Split(header, ',') + [part], ',');
  }

  /** One more part whose key is not `t` keeps the timestamp and only ever adds
      to the signatures. */
  lemma AppendedPartParses(header: string, part: string, t: I64, signatures: seq<string>)
    requires Parsed(header) == Ok((t, signatures))
    requires ',' !in part && HasEquals(part) && Key(part) != "t"
    ensures Parsed(header + [','] + part) ==
            Ok((t, if Key(part) == "v1" then signatures + [FieldValue(part)] else signatures))
  {
    hide Select, Parsed, IsNumeral, NumeralValue, Key, FieldValue, HasEquals;
    var parts := Split(header, ',');
    ParsedExact(header, t, signatures);
    SplitAppended(header, part);
    SelectAppend(parts, [part], "t");
    SelectAppend(parts, [part], "v1");
    SelectOne(part, "t");
    SelectOne(part, "v1");
    assert Select(parts, "t") + [] == Select(parts, "t") && signatures + [] == signatures;
    ParsedExact(header + [','] + part, t, Select(parts + [part], "v1"));
  }

  // ---------------------------------------------------------------------
  // Spelling of the timestamp.
  // ---------------------------------------------------------------------

  /** Replacing the timestamp part by any other spelling of the same number
      (leading zeros, a plus sign, padding) parses to the same result. */
  lemma SpellingIrrelevant(parts: seq<string>, i: nat, part': string)
    requires i < |parts| && AllHaveEquals(parts)
    requires forall k :: 0 <= k < |parts| ==> ',' !in parts[k]
    requires ',' !in part' && HasKey(parts[i], "t") && HasKey(part', "t")
    requires IsNumeral(FieldValue(parts[i])) && IsNumeral(FieldValue(part'))
    requires NumeralValue(FieldValue(parts[i])) == NumeralValue(FieldValue(part'))
    ensures Parsed(Join(parts[i := part'], ',')) == Parsed(Join(parts, ','))
  {
    hide Select, IsNumeral, NumeralValue, Key, FieldValue, HasEquals, IsBlank, Join, ParseI64;
    var parts' := parts[i := part'];
    var part := parts[i];
    assert parts == parts[..i] + ([part] + parts[i + 1..]);
    assert parts' == parts[..i] + ([part'] + parts[i + 1..]);
    SplitJoin(parts, ',');
    SplitJoin(parts', ',');
    SelectThrough(parts[..i], part, parts[i + 1..], "t");
    SelectThrough(parts[..i], part', parts[i + 1..], "t");
    SelectThrough(parts[..i], part, parts[i + 1..], "v1");
    SelectThrough(parts[..i], part', parts[i + 1..], "v1");
    ParseExact(FieldValue(part));
    ParseExact(FieldValue(part'));
    NotBlank(parts);
    NotBlank(parts');
  }

  lemma SelectThrough(before: seq<string>, part: string, after: seq<string>, key: string)
    ensures Select(before + ([part] + after), key) == Select(before, key) + Select([part], key) + Select(after, key)
    ensures Select([part], key) == if HasKey(part, key) then [FieldValue(part)] else []
  {
    SelectAppend(before, [part] + after, key);
    SelectAppend([part], after, key);
    SelectOne(part, key);
  }

}
