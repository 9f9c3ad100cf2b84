/** The request parser shared by the two TFTP tools: NUL-terminated fields, empties dropped,
    the rest paired up as options. Latin-1 text is the byte sequence it decodes from. */
module TftpRequest {
  import opened Bytes

  type Text = seq<byte>

  datatype Request = Malformed | Request(filename: Text, mode: Text, options: map<Text, Text>)

  datatype Opt = Opt(name: Text, value: Text)

  /** Lower case of one Latin-1 character. */
  function LowerChar(c: byte): (r: byte) {
    if 65 <= c <= 90 || (192 <= c <= 222 && c != 215) then c + 32 else c
  }

  function Lower(s: Text): (r: Text)
    ensures |r| == |s|
  {
    seq(|s|, i requires 0 <= i < |s| => LowerChar(s[i]))
  }

  // ---------------------------------------------------------------- parsing

  /** bytes.split(NUL): the stretches between NULs, one more than there are NULs. */
  function Split(p: seq<byte>): (fields: seq<Text>)
    ensures |fields| >= 1
  {
    if p == [] then [[]]
    else
      var rest := Split(p[1..]);
      if p[0] == 0 then [[]] + rest else [[p[0]] + rest[0]] + rest[1..]
  }

  predicate Filled(fields: seq<Text>) { forall i | 0 <= i < |fields| :: fields[i] != [] }

  function DropEmpties(fields: seq<Text>): (r: seq<Text>)
    ensures Filled(r)
  {
    if fields == [] then []
    else (if fields[0] == [] then [] else [fields[0]]) + DropEmpties(fields[1..])
  }

  /** The first n name/value pairs as a dictionary; a repeated name keeps the later value. */
  function PairUp(rest: seq<Text>, n: nat): (m: map<Text, Text>)
    requires 2 * n <= |rest|
  {
    if n == 0 then map[] else PairUp(rest, n - 1)[Lower(rest[2 * n - 2]) := rest[2 * n - 1]]
  }

  function Parse(payload: seq<byte>): (r: Request) {
    var parts := DropEmpties(Split(payload));
    if |parts| < 2 then Malformed
    else Request(parts[0], Lower(parts[1]), PairUp(parts[2..], |parts[2..]| / 2))
  }

  /** parse_rrq and parse_rq. */
  method ParseRequest(payload: seq<byte>) returns (r: Request)
    ensures r == Parse(payload)
  {
    var parts := DropEmpties(Split(payload));
    if |parts| < 2 {
      return Malformed;
    }
    var filename, mode := parts[0], Lower(parts[1]);
    var options: map<Text, Text> := map[];
    var rest := parts[2..];
    var i := 0;
    while i < |rest| - 1
      invariant 0 <= i <= |rest| && i % 2 == 0
      invariant options == PairUp(rest, i / 2)
    {
      options := options[Lower(rest[i]) := rest[i + 1]];
      i := i + 2;
    }
    return Request(filename, mode, options);
  }

  // ---------------------------------------------------------------- printing

  function Terminate(fields: seq<Text>): (p: seq<byte>) {
    if fields == [] then [] else fields[0] + [0] + Terminate(fields[1..])
  }

  function OptionFields(opts: seq<Opt>): (fields: seq<Text>)
    ensures |fields| == 2 * |opts|
    ensures forall i | 0 <= i < |opts| :: fields[2 * i] == opts[i].name && fields[2 * i + 1] == opts[i].value
  {
    if opts == [] then [] else OptionFields(opts[..|opts| - 1]) + [opts[|opts| - 1].name, opts[|opts| - 1].value]
  }

  /** A request body in the form of RFC 2347: every field followed by a NUL. */
  function Print(filename: Text, mode: Text, opts: seq<Opt>): (p: seq<byte>) {
    Terminate([filename, mode] + OptionFields(opts))
  }

  predicate NulFree(s: Text) { 0 !in s }

  predicate Printable(filename: Text, mode: Text, opts: seq<Opt>) {
    NulFree(filename) && NulFree(mode) && forall o | o in opts :: NulFree(o.name) && NulFree(o.value)
  }

  predicate DistinctNames(opts: seq<Opt>) {
    forall i, j | 0 <= i < j < |opts| :: Lower(opts[i].name) != Lower(opts[j].name)
  }

  predicate NoEmptyField(filename: Text, mode: Text, opts: seq<Opt>) {
    filename != [] && mode != [] && forall o | o in opts :: o.name != [] && o.value != []
  }

  /** The dictionary holds the given options, under lower-case names, and nothing else. */
  ghost predicate Holds(m: map<Text, Text>, opts: seq<Opt>) {
    && (forall o | o in opts :: Lower(o.name) in m && m[Lower(o.name)] == o.value)
    && (forall k | k in m :: exists o :: o in opts && Lower(o.name) == k)
  }

  ghost predicate ReadBack(r: Request, filename: Text, mode: Text, opts: seq<Opt>) {
    r.Request? && r.filename == filename && r.mode == Lower(mode) && Holds(r.options, opts)
  }

  // ---------------------------------------------------------------- the round trip

  lemma {:induction false} SplitField(f: Text, rest: seq<byte>)
    requires NulFree(f)
    ensures Split(f + [0] + rest) == [f] + Split(rest)
  {
    var p := f + [0] + rest;
    if f == [] {
      assert p[1..] == rest;
    } else {
      assert NulFree(f[1..]) by { assert forall c | c in f[1..] :: c in f; }
      SplitField(f[1..], rest);
      assert p[1..] == f[1..] + [0] + rest;
      assert [f[0]] + f[1..] == f;
    }
  }

  lemma {:induction false} SplitTerminated(fields: seq<Text>)
    requires forall i | 0 <= i < |fields| :: NulFree(fields[i])
    ensures Split(Terminate(fields)) == fields + [[]]
  {
    if fields != [] {
      SplitTerminated(fields[1..]);
      SplitField(fields[0], Terminate(fields[1..]));
    }
  }

  lemma {:induction false} DropNothing(fields: seq<Text>)
    requires Filled(fields)
    ensures DropEmpties(fields + [[]]) == fields
  {
    if fields == [] {
      assert (fields + [[]])[1..] == [];
    } else {
      DropNothing(fields[1..]);
      assert (fields + [[]])[1..] == fields[1..] + [[]];
    }
  }

  /** A dictionary that holds some options holds one more with a new name after adding it. */
  lemma HoldsOneMore(m: map<Text, Text>, opts: seq<Opt>, o: Opt)
    requires Holds(m, opts) && forall p | p in opts :: Lower(p.name) != Lower(o.name)
    ensures Holds(m[Lower(o.name) := o.value], opts + [o])
  {
    var m' := m[Lower(o.name) := o.value];
    forall k | k in m'
      ensures exists p :: p in opts + [o] && Lower(p.name) == k
    {
      if k == Lower(o.name) {
        assert o in opts + [o];
      } else {
        var p :| p in opts && Lower(p.name) == k;
        assert p in opts + [o];
      }
    }
  }

  lemma PairsNext(opts: seq<Opt>, n: nat)
    requires 1 <= n <= |opts|
    ensures PairUp(OptionFields(opts), n)
            == PairUp(OptionFields(opts), n - 1)[Lower(opts[n - 1].name) := opts[n - 1].value]
  {
    var fields := OptionFields(opts);
    assert fields[2 * (n - 1)] == opts[n - 1].name && fields[2 * (n - 1) + 1] == opts[n - 1].value;
  }

  lemma NewName(opts: seq<Opt>, n: nat)
    requires DistinctNames(opts) && 1 <= n <= |opts|
    ensures forall p | p in opts[..n - 1] :: Lower(p.name) != Lower(opts[n - 1].name)
  {
    forall p | p in opts[..n - 1]
      ensures Lower(p.name) != Lower(opts[n - 1].name)
    {
      var i :| 0 <= i < n - 1 && opts[i] == p;
    }
  }

  lemma HoldsNext(opts: seq<Opt>, n: nat, m: map<Text, Text>, next: map<Text, Text>)
    requires DistinctNames(opts) && 1 <= n <= |opts| && Holds(m, opts[..n - 1])
    requires next == m[Lower(opts[n - 1].name) := opts[n - 1].value]
    ensures Holds(next, opts[..n])
  {
    NewName(opts, n);
    HoldsOneMore(m, opts[..n - 1], opts[n - 1]);
    assert opts[..n] == opts[..n - 1] + [opts[n - 1]];
  }

  lemma {:induction false} PairsHoldOptions(opts: seq<Opt>, n: nat)
    requires DistinctNames(opts) && n <= |opts|
    ensures Holds(PairUp(OptionFields(opts), n), opts[..n])
  {
    if n > 0 {
      PairsHoldOptions(opts, n - 1);
      PairsNext(opts, n);
      HoldsNext(opts, n, PairUp(OptionFields(opts), n - 1), PairUp(OptionFields(opts), n));
    }
  }

  lemma PairsHoldAll(opts: seq<Opt>)
    requires DistinctNames(opts)
    ensures Holds(PairUp(OptionFields(opts), |OptionFields(opts)| / 2), opts)
  {
    assert |OptionFields(opts)| / 2 == |opts|;
    PairsHoldOptions(opts, |opts|);
    assert opts[..|opts|] == opts;
  }

  lemma {:induction false} PairsNonEmpty(rest: seq<Text>, n: nat)
    requires 2 * n <= |rest| && Filled(rest)
    ensures forall k | k in PairUp(rest, n) :: k != [] && PairUp(rest, n)[k] != []
  {
    if n > 0 {
      PairsNonEmpty(rest, n - 1);
    }
  }

  lemma ParsedIsNonEmpty(payload: seq<byte>)
    requires Parse(payload).Request?
    ensures var r := Parse(payload);
            r.filename != [] && r.mode != [] && forall k | k in r.options :: k != [] && r.options[k] != []
  {
    var parts := DropEmpties(Split(payload));
    PairsNonEmpty(parts[2..], |parts[2..]| / 2);
  }

  // ---------------------------------------------------------------- any payload

  /** Splitting loses nothing: the fields, each followed by a NUL, are the payload and one NUL more. */
  lemma {:induction false} SplitLosesNothing(p: seq<byte>)
    ensures Terminate(Split(p)) == p + [0]
    ensures forall i | 0 <= i < |Split(p)| :: NulFree(Split(p)[i])
  {
    if p == [] {
      assert Terminate([[]]) == [0];
    } else {
      var rest := Split(p[1..]);
      SplitLosesNothing(p[1..]);
      assert p == [p[0]] + p[1..];
      if p[0] != 0 {
        var first := [p[0]] + rest[0];
        assert ([first] + rest[1..])[1..] == rest[1..];
        assert first + [0] + Terminate(rest[1..]) == [p[0]] + (rest[0] + [0] + Terminate(rest[1..]));
      } else {
        assert ([[]] + rest)[1..] == rest;
      }
    }
  }

  /** Of any fields, in their order, those that are not empty are kept. */
  lemma {:induction false} DropsJustEmpties(a: seq<Text>, f: Text, b: seq<Text>)
    ensures DropEmpties(a + ([f] + b)) == DropEmpties(a) + (if f == [] then [] else [f]) + DropEmpties(b)
  {
    if a == [] {
      assert a + ([f] + b) == [f] + b && ([f] + b)[1..] == b;
    } else {
      assert (a + ([f] + b))[1..] == a[1..] + ([f] + b);
      DropsJustEmpties(a[1..], f, b);
    }
  }

  /** The last of the first n pairs with the given name, if there is one, is pair i. */
  ghost predicate LastNamed(rest: seq<Text>, n: nat, name: Text, i: nat)
    requires 2 * n <= |rest|
  {
    && i < n && Lower(rest[2 * i]) == name
    && forall j: nat | i < j < n :: Lower(rest[2 * j]) != name
  }

  lemma {:induction false} PairsByName(rest: seq<Text>, n: nat, name: Text)
    requires 2 * n <= |rest|
    ensures name in PairUp(rest, n) <==> exists i: nat | i < n :: Lower(rest[2 * i]) == name
    ensures forall i: nat | LastNamed(rest, n, name, i) :: name in PairUp(rest, n)
                                                           && PairUp(rest, n)[name] == rest[2 * i + 1]
  {
    if n > 0 {
      PairsByName(rest, n - 1, name);
      assert rest[2 * n - 2] == rest[2 * (n - 1)];
      if Lower(rest[2 * (n - 1)]) != name {
        assert forall i: nat | LastNamed(rest, n, name, i) :: LastNamed(rest, n - 1, name, i);
      }
    }
  }

  /** What a payload is read as, by its non-empty fields: malformed with fewer than two, otherwise a file name, a mode
      and options. An option's value is the field after the last of its names; a name without a field after it is
      dropped. */
  lemma ParsedFields(payload: seq<byte>, name: Text)
    ensures var parts, r := DropEmpties(Split(payload)), Parse(payload);
            && (r.Malformed? <==> |parts| < 2)
            && (r.Request? ==>
                  var rest := parts[2..];
                  && r.filename == parts[0] && r.mode == Lower(parts[1])
                  && (name in r.options <==> exists i: nat | 2 * i + 1 < |rest| :: Lower(rest[2 * i]) == name)
                  && forall i: nat | LastNamed(rest, |rest| / 2, name, i) ::
                       name in r.options && r.options[name] == rest[2 * i + 1])
  {
    var parts := DropEmpties(Split(payload));
    if |parts| >= 2 {
      PairsByName(parts[2..], |parts[2..]| / 2, name);
    }
  }

  // ---------------------------------------------------------------- case

  /** Letters A to Z become a to z, and no such letter is left. */
  lemma LowerCase(s: Text, i: nat)
    requires i < |s|
    ensures var c, r := s[i], Lower(s)[i];
            && (65 <= c <= 90 ==> r == c + 32) && !(65 <= r <= 90)
            && (c < 65 || 90 < c < 192 || c == 215 || c > 222 ==> r == c)
            && (192 <= c <= 222 && c != 215 ==> r == c + 32)
  {
  }

  /** So modes and option names are compared without regard to case. */
  lemma ParsedIsLower(payload: seq<byte>)
    requires Parse(payload).Request?
    ensures var r := Parse(payload);
            && (forall i | 0 <= i < |r.mode| :: !(65 <= r.mode[i] <= 90))
            && forall name, i | name in r.options && 0 <= i < |name| :: !(65 <= name[i] <= 90)
  {
    var r, parts := Parse(payload), DropEmpties(Split(payload));
    forall i | 0 <= i < |r.mode| ensures !(65 <= r.mode[i] <= 90) {
      LowerCase(parts[1], i);
    }
    forall name, i | name in r.options && 0 <= i < |name| ensures !(65 <= name[i] <= 90) {
      ParsedFields(payload, name);
      var k: nat :| 2 * k + 1 < |parts[2..]| && Lower(parts[2..][2 * k]) == name;
      LowerCase(parts[2..][2 * k], i);
    }
  }

  /** "OCTET" reads as "octet". */
  lemma OctetReads()
    ensures Lower([79, 67, 84, 69, 84]) == [111, 99, 116, 101, 116]
  {
  }

  lemma PrintedFields(filename: Text, mode: Text, opts: seq<Opt>)
    requires Printable(filename, mode, opts)
    ensures var fields := [filename, mode] + OptionFields(opts);
            && (forall i | 0 <= i < |fields| :: NulFree(fields[i]))
            && (NoEmptyField(filename, mode, opts) ==> Filled(fields))
  {
    var fields := [filename, mode] + OptionFields(opts);
    forall i | 2 <= i < |fields|
      ensures exists o :: o in opts && (fields[i] == o.name || fields[i] == o.value)
    {
      var j := (i - 2) / 2;
      assert i - 2 == 2 * j || i - 2 == 2 * j + 1;
      assert opts[j] in opts;
    }
  }

  lemma ParseTerminated(filename: Text, mode: Text, rest: seq<Text>)
    requires var fields := [filename, mode] + rest;
             Filled(fields) && forall i | 0 <= i < |fields| :: NulFree(fields[i])
    ensures Parse(Terminate([filename, mode] + rest))
            == Request(filename, Lower(mode), PairUp(rest, |rest| / 2))
  {
    var fields := [filename, mode] + rest;
    SplitTerminated(fields);
    DropNothing(fields);
    assert fields[2..] == rest;
  }

  lemma NonEmptyReadsBack(filename: Text, mode: Text, opts: seq<Opt>)
    requires Printable(filename, mode, opts) && DistinctNames(opts) && NoEmptyField(filename, mode, opts)
    ensures ReadBack(Parse(Print(filename, mode, opts)), filename, mode, opts)
  {
    PrintedFields(filename, mode, opts);
    ParseTerminated(filename, mode, OptionFields(opts));
    PairsHoldAll(opts);
  }

  /** A printed request reads back as what was printed exactly when no field of it is empty. */
  lemma RoundTripIff(filename: Text, mode: Text, opts: seq<Opt>)
    requires Printable(filename, mode, opts) && DistinctNames(opts)
    ensures ReadBack(Parse(Print(filename, mode, opts)), filename, mode, opts)
            <==> NoEmptyField(filename, mode, opts)
  {
    var r := Parse(Print(filename, mode, opts));
    if NoEmptyField(filename, mode, opts) {
      NonEmptyReadsBack(filename, mode, opts);
    } else if r.Request? {
      ParsedIsNonEmpty(Print(filename, mode, opts));
    }
  }
}
