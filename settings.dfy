// The settings codec of libfaros.py: the per-position character tables, the
// reverse lookup used to build a settings string, and the decoding of the
// string the device reports.

module SettingsCodec {
  import opened Results

  /** A value held by a settings table: a Python int, the float 0.25, or a word ('on'/'off'). */
  datatype Val = Num(n: nat) | Quarter | Word(w: string)

  /** The exceptions that the table lookups and string indexing raise. */
  datatype Failure = IndexError(index: nat) | KeyError(key: string)

  /** Decoded settings: position 0 stays a character, the others are table values. */
  datatype Settings = Settings(
    nEcg: char,
    ecgFs: Val,
    ecgRes: Val,
    ecgHp: Val,
    ecgRr: Val,
    accFs: Val,
    accRes: Val,
    temperature: Val)

  /** A dictionary literal, as its key/value pairs in written order. */
  type Table = seq<(char, Val)>

  function DigitChar(d: nat): (c: char)
    requires d < 10
    ensures '0' <= c <= '9'
  {
    ('0' as int + d) as char
  }

  /** Python's str() of a non-negative int. */
  function Decimal(n: nat): string
  {
    if n < 10 then [DigitChar(n)] else Decimal(n / 10) + [DigitChar(n % 10)]
  }

  /** A rendering is a non-empty string of digits, longer than one digit from 10 on. */
  lemma {:induction false} DecimalDigits(n: nat)
    ensures 1 <= |Decimal(n)| && (n >= 10 ==> |Decimal(n)| >= 2)
    ensures forall i :: 0 <= i < |Decimal(n)| ==> '0' <= Decimal(n)[i] <= '9'
  {
    if n >= 10 {
      DecimalDigits(n / 10);
    }
  }

  /** Python's str() of a table value; inv_lookup compares values only through it. */
  function Str(v: Val): string
  {
    match v
    case Num(n) => Decimal(n)
    case Quarter => "0.25"
    case Word(w) => w
  }

  // ----- The character tables (libfaros.py get_*_str*) -----

  function EcgFsTable(): Table
  {
    [('0', Num(0)), ('1', Num(1000)), ('2', Num(500)), ('4', Num(250)), ('8', Num(125)), ('t', Num(100))]
  }

  function EcgResTable(): Table { [('0', Quarter), ('1', Num(1))] }

  function EcgHpTable(): Table { [('0', Num(1)), ('1', Num(10))] }

  function EcgRrTable(): Table { [('0', Word("off")), ('1', Word("on"))] }

  function AccFsTable(): Table
  {
    [('0', Num(0)), ('1', Num(100)), ('2', Num(50)), ('3', Num(40)), ('4', Num(25)), ('t', Num(20))]
  }

  function AccResTable(): Table { [('0', Quarter), ('1', Num(1))] }

  function TempTable(): Table { [('0', Word("off")), ('1', Word("on"))] }

  /** The table that decodes position `i` (1..7) of the settings string. */
  function TableAt(i: nat): Table
    requires 1 <= i <= 7
  {
    match i
    case 1 => EcgFsTable()
    case 2 => EcgResTable()
    case 3 => EcgHpTable()
    case 4 => EcgRrTable()
    case 5 => AccFsTable()
    case 6 => AccResTable()
    case 7 => TempTable()
  }

  function Values(t: Table): set<Val>
  {
    set i | 0 <= i < |t| :: t[i].1
  }

  predicate DistinctKeys(t: Table)
  {
    forall i, j :: 0 <= i < j < |t| ==> t[i].0 != t[j].0
  }

  predicate DistinctRenderings(t: Table)
  {
    forall i, j :: 0 <= i < j < |t| ==> Str(t[i].1) != Str(t[j].1)
  }

  // ----- Lookups -----

  /** `d[c]` for a dictionary literal: when a key repeats, the later pair wins. */
  function Lookup(t: Table, c: char): Option<Val>
  {
    if t == [] then None
    else if t[|t| - 1].0 == c then Some(t[|t| - 1].1)
    else Lookup(t[..|t| - 1], c)
  }

  /** inv_lookup(d, v): the dictionary {str(v): str(k)} indexed by str(v); later pairs win. */
  function InvLookup(t: Table, s: string): Option<char>
  {
    if t == [] then None
    else if Str(t[|t| - 1].1) == s then Some(t[|t| - 1].0)
    else InvLookup(t[..|t| - 1], s)
  }

  /**
   * A lookup succeeds exactly on the table's keys, and yields the value of the
   * last pair with that key.
   */
  lemma {:induction false} LookupSound(t: Table, c: char)
    ensures Lookup(t, c).Some? <==> exists i :: 0 <= i < |t| && t[i].0 == c
    ensures Lookup(t, c).Some? ==> exists i :: 0 <= i < |t| && t[i] == (c, Lookup(t, c).value)
                                                && forall j :: i < j < |t| ==> t[j].0 != c
  {
    if t != [] && t[|t| - 1].0 != c {
      var init := t[..|t| - 1];
      LookupSound(init, c);
      assert forall i :: 0 <= i < |init| ==> init[i] == t[i];
      if Lookup(init, c).Some? {
        var i :| 0 <= i < |init| && init[i] == (c, Lookup(init, c).value)
                 && forall j :: i < j < |init| ==> init[j].0 != c;
        assert t[i] == (c, Lookup(t, c).value) && forall j :: i < j < |t| ==> t[j].0 != c;
      }
    }
  }

  /**
   * On a dictionary literal without repeated keys, a reverse lookup succeeds
   * exactly on the renderings of the table's values, and yields the key of the
   * last pair whose value renders that way.
   */
  lemma {:induction false} InvLookupSound(t: Table, s: string)
    requires DistinctKeys(t)
    ensures InvLookup(t, s).Some? <==> exists i :: 0 <= i < |t| && Str(t[i].1) == s
    ensures InvLookup(t, s).Some? ==> exists i :: 0 <= i < |t| && t[i].0 == InvLookup(t, s).value && Str(t[i].1) == s
                                                 && forall j :: i < j < |t| ==> Str(t[j].1) != s
  {
    if t != [] && Str(t[|t| - 1].1) != s {
      var init := t[..|t| - 1];
      assert DistinctKeys(init);
      InvLookupSound(init, s);
      assert forall i :: 0 <= i < |init| ==> init[i] == t[i];
      if InvLookup(init, s).Some? {
        var i :| 0 <= i < |init| && init[i].0 == InvLookup(init, s).value && Str(init[i].1) == s
                 && forall j :: i < j < |init| ==> Str(init[j].1) != s;
        assert t[i].0 == InvLookup(t, s).value && Str(t[i].1) == s && forall j :: i < j < |t| ==> Str(t[j].1) != s;
      }
    }
  }

  lemma {:induction false} LookupAt(t: Table, i: nat)
    requires DistinctKeys(t) && i < |t|
    ensures Lookup(t, t[i].0) == Some(t[i].1)
  {
    if i < |t| - 1 {
      var init := t[..|t| - 1];
      LookupAt(init, i);
    }
  }

  /** On a literal without repeated keys or renderings, each value's rendering finds its own key. */
  lemma {:induction false} InvLookupAt(t: Table, i: nat)
    requires DistinctKeys(t) && DistinctRenderings(t) && i < |t|
    ensures InvLookup(t, Str(t[i].1)) == Some(t[i].0)
  {
    if i < |t| - 1 {
      var init := t[..|t| - 1];
      assert DistinctKeys(init);
      InvLookupAt(init, i);
    }
  }

  /**
   * On a table whose keys and whose rendered values are both distinct, the
   * reverse lookup undoes the lookup and vice versa; a value that no key maps
   * to has no reverse.
   */
  lemma TableRoundTrip(t: Table, c: char, s: string)
    requires DistinctKeys(t) && DistinctRenderings(t)
    ensures Lookup(t, c).Some? ==> InvLookup(t, Str(Lookup(t, c).value)) == Some(c)
    ensures InvLookup(t, s).Some? ==>
              Lookup(t, InvLookup(t, s).value).Some? && Str(Lookup(t, InvLookup(t, s).value).value) == s
    ensures InvLookup(t, s).None? <==> forall v :: v in Values(t) ==> Str(v) != s
  {
    LookupSound(t, c);
    InvLookupSound(t, s);
    if Lookup(t, c).Some? {
      var i :| 0 <= i < |t| && t[i] == (c, Lookup(t, c).value);
      InvLookupAt(t, i);
    }
    if InvLookup(t, s).Some? {
      var i :| 0 <= i < |t| && t[i].0 == InvLookup(t, s).value && Str(t[i].1) == s;
      LookupAt(t, i);
    }
    if InvLookup(t, s).None? {
      forall v | v in Values(t) ensures Str(v) != s {
        var i :| 0 <= i < |t| && t[i].1 == v;
      }
    } else {
      var i :| 0 <= i < |t| && Str(t[i].1) == s;
      assert t[i].1 in Values(t);
    }
  }

  /** Distinct integers have distinct decimal renderings. */
  lemma {:induction false} DecimalInjective(a: nat, b: nat)
    requires Decimal(a) == Decimal(b)
    ensures a == b
  {
    if a >= 10 && b >= 10 {
      var da, db := Decimal(a), Decimal(b);
      assert da[..|da| - 1] == Decimal(a / 10) && db[..|db| - 1] == Decimal(b / 10);
      DecimalInjective(a / 10, b / 10);
      assert DigitChar(a % 10) == da[|da| - 1] == DigitChar(b % 10);
    }
  }

  /** Str is injective on the values the tables hold. */
  lemma StrInjective(u: Val, v: Val)
    requires u != v
    requires (!u.Word? && !v.Word?) || (u in [Word("on"), Word("off")] && v in [Word("on"), Word("off")])
    ensures Str(u) != Str(v)
  {
    if u.Num? && v.Num? {
      if Str(u) == Str(v) { DecimalInjective(u.n, v.n); }
    } else if u.Quarter? && v.Num? {
      DecimalDigits(v.n);
      assert Str(u)[1] == '.';
    } else if v.Quarter? && u.Num? {
      DecimalDigits(u.n);
      assert Str(v)[1] == '.';
    }
  }

  /** Every table of libfaros.py maps distinct characters to distinctly rendered values. */
  lemma TablesBijective(i: nat)
    requires 1 <= i <= 7
    ensures DistinctKeys(TableAt(i)) && DistinctRenderings(TableAt(i))
  {
    match i
    case 1 => EcgFsBijective();
    case 2 => EcgResBijective();
    case 3 => EcgHpBijective();
    case 4 => EcgRrBijective();
    case 5 => AccFsBijective();
    case 6 => AccResBijective();
    case 7 => TempBijective();
  }

  lemma EcgFsBijective()
    ensures DistinctKeys(EcgFsTable()) && DistinctRenderings(EcgFsTable())
  {
    var t := EcgFsTable();
    assert DistinctKeys(t);
    DistinctValuesRender(t);
  }

  lemma EcgResBijective()
    ensures DistinctKeys(EcgResTable()) && DistinctRenderings(EcgResTable())
  {
    var t := EcgResTable();
    assert DistinctKeys(t);
    DistinctValuesRender(t);
  }

  lemma EcgHpBijective()
    ensures DistinctKeys(EcgHpTable()) && DistinctRenderings(EcgHpTable())
  {
    var t := EcgHpTable();
    assert DistinctKeys(t);
    DistinctValuesRender(t);
  }

  lemma EcgRrBijective()
    ensures DistinctKeys(EcgRrTable()) && DistinctRenderings(EcgRrTable())
  {
    var t := EcgRrTable();
    assert DistinctKeys(t);
    DistinctValuesRender(t);
  }

  lemma AccFsBijective()
    ensures DistinctKeys(AccFsTable()) && DistinctRenderings(AccFsTable())
  {
    var t := AccFsTable();
    assert DistinctKeys(t);
    DistinctValuesRender(t);
  }

  lemma AccResBijective()
    ensures DistinctKeys(AccResTable()) && DistinctRenderings(AccResTable())
  {
    var t := AccResTable();
    assert DistinctKeys(t);
    DistinctValuesRender(t);
  }

  lemma TempBijective()
    ensures DistinctKeys(TempTable()) && DistinctRenderings(TempTable())
  {
    var t := TempTable();
    assert DistinctKeys(t);
    DistinctValuesRender(t);
  }

  /** Distinct numbers and quarters, or distinct 'on'/'off' words, render distinctly. */
  lemma DistinctValuesRender(t: Table)
    requires forall j, k :: 0 <= j < k < |t| ==> t[j].1 != t[k].1
    requires (forall j :: 0 <= j < |t| ==> !t[j].1.Word?)
             || (forall j :: 0 <= j < |t| ==> t[j].1 in [Word("on"), Word("off")])
    ensures DistinctRenderings(t)
  {
    forall j, k | 0 <= j < k < |t| ensures Str(t[j].1) != Str(t[k].1) {
      StrInjective(t[j].1, t[k].1);
    }
  }

  // ----- Decoding: unpack_settings -----

  /** The settings string with its three-character response prefix removed (Python `s[3:]`). */
  function Body(s: string): string
  {
    if |s| >= 3 then s[3..] else []
  }

  /** Position `i` of the body decoded through its table, or the exception raised. */
  function Position(b: string, i: nat): (r: Result<Val, Failure>)
    requires 1 <= i <= 7
    ensures r.Ok? <==> i < |b| && Lookup(TableAt(i), b[i]).Some?
    ensures r.Ok? ==> Lookup(TableAt(i), b[i]) == Some(r.value)
    ensures r.Err? ==> r.error == if i < |b| then KeyError([b[i]]) else IndexError(i)
  {
    if i >= |b| then Err(IndexError(i))
    else match Lookup(TableAt(i), b[i])
      case None => Err(KeyError([b[i]]))
      case Some(v) => Ok(v)
  }

  /** The value of field `i` (1..7), in the order the settings string stores them. */
  function Field(st: Settings, i: nat): Val
    requires 1 <= i <= 7
  {
    match i
    case 1 => st.ecgFs
    case 2 => st.ecgRes
    case 3 => st.ecgHp
    case 4 => st.ecgRr
    case 5 => st.accFs
    case 6 => st.accRes
    case 7 => st.temperature
  }

  /** Positions 1..n-1 of the body exist and each lies in its table. */
  predicate ValidUpTo(b: string, n: nat)
    requires 1 <= n <= 8
  {
    n == 1 || (ValidUpTo(b, n - 1) && n - 1 < |b| && Lookup(TableAt(n - 1), b[n - 1]).Some?)
  }

  /** The exception that position `i` raises, when it is the first to fail. */
  predicate FailsFirstAt(b: string, i: nat, e: Failure)
  {
    1 <= i <= 7 && ValidUpTo(b, i)
    && if i < |b| then Lookup(TableAt(i), b[i]).None? && e == KeyError([b[i]]) else e == IndexError(i)
  }

  /** Positions 1..n-1 decoded left to right, stopping at the first exception. */
  function Positions(b: string, n: nat): (r: Result<seq<Val>, Failure>)
    requires 1 <= n <= 8
    ensures r.Ok? <==> ValidUpTo(b, n)
    ensures r.Ok? ==> |r.value| == n - 1
    ensures r.Ok? ==> forall i :: 1 <= i < n ==> Lookup(TableAt(i), b[i]) == Some(r.value[i - 1])
    ensures r.Err? ==> exists i: nat :: i < n && FailsFirstAt(b, i, r.error)
  {
    if n == 1 then Ok([])
    else
      var init :- Positions(b, n - 1);
      match Position(b, n - 1)
      case Err(e) => assert FailsFirstAt(b, n - 1, e); Err(e)
      case Ok(v) => Ok(init + [v])
  }

  /**
   * unpack_settings: drop the three-character prefix, keep position 0 as a
   * character and decode positions 1..7 through their tables, raising at the
   * first position that is missing or outside its table.
   */
  function UnpackSettings(s: string): (r: Result<Settings, Failure>)
    ensures r.Ok? <==> |Body(s)| >= 1 && ValidUpTo(Body(s), 8)
    ensures r.Ok? ==> |Body(s)| >= 8 && r.value.nEcg == Body(s)[0]
    ensures r.Ok? ==> forall i :: 1 <= i <= 7 ==> Lookup(TableAt(i), Body(s)[i]) == Some(Field(r.value, i))
    ensures r.Err? ==> (|Body(s)| == 0 && r.error == IndexError(0)) || exists i: nat :: FailsFirstAt(Body(s), i, r.error)
  {
    var b := Body(s);
    if |b| == 0 then Err(IndexError(0))
    else
      var vs :- Positions(b, 8);
      Ok(Settings(b[0], vs[0], vs[1], vs[2], vs[3], vs[4], vs[5], vs[6]))
  }

  // ----- Encoding: inv_lookup and mode_to_str -----

  /** inv_lookup, raising KeyError for a value that no table entry renders to. */
  function InvLookupOrFail(t: Table, s: string): (r: Result<char, Failure>)
  {
    match InvLookup(t, s)
    case None => Err(KeyError(s))
    case Some(c) => Ok(c)
  }

  /** `s` is the rendering of some value of `t`. */
  predicate Rendered(t: Table, s: string)
  {
    exists i :: 0 <= i < |t| && Str(t[i].1) == s
  }

  /**
   * mode_to_str: every argument is taken by its text (str(v)); the two rates and
   * the two resolutions and the filter are reverse-looked-up, the rest are copied.
   */
  function ModeToStr(ecgN: string, ecgFs: string, ecgRes: string, ecgHp: string,
                     rr: string, accFs: string, accRes: string, temp: string): (r: Result<string, Failure>)
    ensures r.Ok? ==> |r.value| == |ecgN| + |rr| + |temp| + 5
    ensures r.Err? ==> r.error.KeyError? && r.error.key in [ecgFs, ecgRes, ecgHp, accFs, accRes]
  {
    var fs :- InvLookupOrFail(EcgFsTable(), ecgFs);
    var res :- InvLookupOrFail(EcgResTable(), ecgRes);
    var hp :- InvLookupOrFail(EcgHpTable(), ecgHp);
    var afs :- InvLookupOrFail(AccFsTable(), accFs);
    var ares :- InvLookupOrFail(AccResTable(), accRes);
    Ok(ecgN + [fs, res, hp] + rr + [afs, ares] + temp)
  }

  /**
   * mode_to_str succeeds exactly when each looked-up argument is the rendering
   * of a value of its table; otherwise the first argument that is not raises KeyError.
   */
  lemma ModeToStrDefined(ecgN: string, ecgFs: string, ecgRes: string, ecgHp: string,
                         rr: string, accFs: string, accRes: string, temp: string)
    ensures ModeToStr(ecgN, ecgFs, ecgRes, ecgHp, rr, accFs, accRes, temp).Ok? <==>
              Rendered(EcgFsTable(), ecgFs) && Rendered(EcgResTable(), ecgRes) && Rendered(EcgHpTable(), ecgHp)
              && Rendered(AccFsTable(), accFs) && Rendered(AccResTable(), accRes)
    ensures !Rendered(EcgFsTable(), ecgFs) ==>
              ModeToStr(ecgN, ecgFs, ecgRes, ecgHp, rr, accFs, accRes, temp) == Err(KeyError(ecgFs))
    ensures Rendered(EcgFsTable(), ecgFs) && !Rendered(EcgResTable(), ecgRes) ==>
              ModeToStr(ecgN, ecgFs, ecgRes, ecgHp, rr, accFs, accRes, temp) == Err(KeyError(ecgRes))
  {
    EcgFsBijective();
    EcgResBijective();
    EcgHpBijective();
    AccFsBijective();
    AccResBijective();
    InvLookupSound(EcgFsTable(), ecgFs);
    InvLookupSound(EcgResTable(), ecgRes);
    InvLookupSound(EcgHpTable(), ecgHp);
    InvLookupSound(AccFsTable(), accFs);
    InvLookupSound(AccResTable(), accRes);
  }

  /** The '0'/'1' character that mode_to_str expects for an 'off'/'on' setting. */
  function FlagChar(v: Val): char
  {
    if v == Word("on") then '1' else '0'
  }

  /** The 'off'/'on' value that the flag tables give to a '0'/'1' character. */
  function FlagVal(c: char): Val
  {
    Word(if c == '1' then "on" else "off")
  }

  /** A body whose characters all decode to the fields of `st` unpacks to `st`. */
  lemma UnpackOf(s: string, st: Settings)
    requires |Body(s)| >= 8 && st.nEcg == Body(s)[0]
    requires Lookup(EcgFsTable(), Body(s)[1]) == Some(st.ecgFs)
    requires Lookup(EcgResTable(), Body(s)[2]) == Some(st.ecgRes)
    requires Lookup(EcgHpTable(), Body(s)[3]) == Some(st.ecgHp)
    requires Lookup(EcgRrTable(), Body(s)[4]) == Some(st.ecgRr)
    requires Lookup(AccFsTable(), Body(s)[5]) == Some(st.accFs)
    requires Lookup(AccResTable(), Body(s)[6]) == Some(st.accRes)
    requires Lookup(TempTable(), Body(s)[7]) == Some(st.temperature)
    ensures UnpackSettings(s) == Ok(st)
  {
    var b := Body(s);
    assert ValidUpTo(b, 1);
    assert ValidUpTo(b, 2) by { assert Lookup(TableAt(1), b[1]).Some?; }
    assert ValidUpTo(b, 3) by { assert Lookup(TableAt(2), b[2]).Some?; }
    assert ValidUpTo(b, 4) by { assert Lookup(TableAt(3), b[3]).Some?; }
    assert ValidUpTo(b, 5) by { assert Lookup(TableAt(4), b[4]).Some?; }
    assert ValidUpTo(b, 6) by { assert Lookup(TableAt(5), b[5]).Some?; }
    assert ValidUpTo(b, 7) by { assert Lookup(TableAt(6), b[6]).Some?; }
    assert ValidUpTo(b, 8) by { assert Lookup(TableAt(7), b[7]).Some?; }
    var r := UnpackSettings(s).value;
    assert Field(r, 1) == Field(st, 1) && Field(r, 2) == Field(st, 2) && Field(r, 3) == Field(st, 3);
    assert Field(r, 4) == Field(st, 4) && Field(r, 5) == Field(st, 5) && Field(r, 6) == Field(st, 6);
    assert Field(r, 7) == Field(st, 7);
  }

  /** The flag tables decode '0' to 'off' and '1' to 'on', and nothing else. */
  lemma FlagTables(c: char)
    ensures Lookup(EcgRrTable(), c).Some? <==> c in "01"
    ensures Lookup(TempTable(), c).Some? <==> c in "01"
    ensures c in "01" ==> Lookup(EcgRrTable(), c) == Lookup(TempTable(), c) == Some(FlagVal(c))
    ensures c in "01" ==> FlagChar(FlagVal(c)) == c
  {
    TablesBijective(4);
    TablesBijective(7);
    LookupSound(EcgRrTable(), c);
    LookupSound(TempTable(), c);
    if c == '0' {
      LookupAt(EcgRrTable(), 0);
      LookupAt(TempTable(), 0);
    } else if c == '1' {
      LookupAt(EcgRrTable(), 1);
      LookupAt(TempTable(), 1);
    }
  }

  /**
   * Round trip from values: requesting table values with a one-character
   * channel count and '0'/'1' flags yields an 8-character string that
   * unpack_settings decodes back to those values, the flags as 'off'/'on'.
   */
  lemma EncodeThenDecode(prefix: string, n: char, fs: Val, res: Val, hp: Val, rr: char,
                         afs: Val, ares: Val, temp: char)
    requires |prefix| == 3
    requires fs in Values(EcgFsTable()) && res in Values(EcgResTable()) && hp in Values(EcgHpTable())
    requires afs in Values(AccFsTable()) && ares in Values(AccResTable())
    requires rr in "01" && temp in "01"
    ensures var code := ModeToStr([n], Str(fs), Str(res), Str(hp), [rr], Str(afs), Str(ares), [temp]);
            code.Ok? && |code.value| == 8
            && UnpackSettings(prefix + code.value)
               == Ok(Settings(n, fs, res, hp, FlagVal(rr), afs, ares, FlagVal(temp)))
  {
    var cfs, cres, chp, cafs, cares := EncodeCode(n, fs, res, hp, rr, afs, ares, temp);
    DecodeOfCode(prefix, n, fs, res, hp, rr, afs, ares, temp, cfs, cres, chp, cafs, cares);
  }

  /** The string that mode_to_str builds from table values, character by character. */
  lemma EncodeCode(n: char, fs: Val, res: Val, hp: Val, rr: char, afs: Val, ares: Val, temp: char)
    returns (cfs: char, cres: char, chp: char, cafs: char, cares: char)
    requires fs in Values(EcgFsTable()) && res in Values(EcgResTable()) && hp in Values(EcgHpTable())
    requires afs in Values(AccFsTable()) && ares in Values(AccResTable())
    ensures ModeToStr([n], Str(fs), Str(res), Str(hp), [rr], Str(afs), Str(ares), [temp])
            == Ok([n, cfs, cres, chp, rr, cafs, cares, temp])
    ensures Lookup(EcgFsTable(), cfs) == Some(fs) && Lookup(EcgResTable(), cres) == Some(res)
    ensures Lookup(EcgHpTable(), chp) == Some(hp) && Lookup(AccFsTable(), cafs) == Some(afs)
    ensures Lookup(AccResTable(), cares) == Some(ares)
  {
    cfs, cres, chp, cafs, cares := EncodeChars(fs, res, hp, afs, ares);
    ModeToStrCode(n, Str(fs), Str(res), Str(hp), rr, Str(afs), Str(ares), temp, cfs, cres, chp, cafs, cares);
  }

  /** mode_to_str with one-character count and flags, once each reverse lookup is known to succeed. */
  lemma ModeToStrCode(n: char, ecgFs: string, ecgRes: string, ecgHp: string,
                      rr: char, accFs: string, accRes: string, temp: char,
                      cfs: char, cres: char, chp: char, cafs: char, cares: char)
    requires InvLookup(EcgFsTable(), ecgFs) == Some(cfs) && InvLookup(EcgResTable(), ecgRes) == Some(cres)
    requires InvLookup(EcgHpTable(), ecgHp) == Some(chp) && InvLookup(AccFsTable(), accFs) == Some(cafs)
    requires InvLookup(AccResTable(), accRes) == Some(cares)
    ensures ModeToStr([n], ecgFs, ecgRes, ecgHp, [rr], accFs, accRes, [temp])
            == Ok([n, cfs, cres, chp, rr, cafs, cares, temp])
  {
    ModeToStrOf([n], ecgFs, ecgRes, ecgHp, [rr], accFs, accRes, [temp], cfs, cres, chp, cafs, cares);
    Concat8(n, cfs, cres, chp, rr, cafs, cares, temp);
  }

  lemma Concat8(a: char, b: char, c: char, d: char, e: char, f: char, g: char, h: char)
    ensures [a] + [b, c, d] + [e] + [f, g] + [h] == [a, b, c, d, e, f, g, h]
  {
  }

  /** The characters that the five looked-up settings reverse to, each decoding back to its value. */
  lemma EncodeChars(fs: Val, res: Val, hp: Val, afs: Val, ares: Val)
    returns (cfs: char, cres: char, chp: char, cafs: char, cares: char)
    requires fs in Values(EcgFsTable()) && res in Values(EcgResTable()) && hp in Values(EcgHpTable())
    requires afs in Values(AccFsTable()) && ares in Values(AccResTable())
    ensures InvLookup(EcgFsTable(), Str(fs)) == Some(cfs) && Lookup(EcgFsTable(), cfs) == Some(fs)
    ensures InvLookup(EcgResTable(), Str(res)) == Some(cres) && Lookup(EcgResTable(), cres) == Some(res)
    ensures InvLookup(EcgHpTable(), Str(hp)) == Some(chp) && Lookup(EcgHpTable(), chp) == Some(hp)
    ensures InvLookup(AccFsTable(), Str(afs)) == Some(cafs) && Lookup(AccFsTable(), cafs) == Some(afs)
    ensures InvLookup(AccResTable(), Str(ares)) == Some(cares) && Lookup(AccResTable(), cares) == Some(ares)
  {
    TablesBijective(1);
    TablesBijective(2);
    TablesBijective(3);
    TablesBijective(5);
    TablesBijective(6);
    cfs := RoundTripAt(EcgFsTable(), fs);
    cres := RoundTripAt(EcgResTable(), res);
    chp := RoundTripAt(EcgHpTable(), hp);
    cafs := RoundTripAt(AccFsTable(), afs);
    cares := RoundTripAt(AccResTable(), ares);
  }

  /** The string built from table characters decodes to their values. */
  lemma DecodeOfCode(prefix: string, n: char, fs: Val, res: Val, hp: Val, rr: char, afs: Val, ares: Val,
                     temp: char, cfs: char, cres: char, chp: char, cafs: char, cares: char)
    requires |prefix| == 3
    requires rr in "01" && temp in "01"
    requires Lookup(EcgFsTable(), cfs) == Some(fs) && Lookup(EcgResTable(), cres) == Some(res)
    requires Lookup(EcgHpTable(), chp) == Some(hp) && Lookup(AccFsTable(), cafs) == Some(afs)
    requires Lookup(AccResTable(), cares) == Some(ares)
    ensures UnpackSettings(prefix + [n, cfs, cres, chp, rr, cafs, cares, temp])
            == Ok(Settings(n, fs, res, hp, FlagVal(rr), afs, ares, FlagVal(temp)))
  {
    FlagTables(rr);
    FlagTables(temp);
    var code := [n, cfs, cres, chp, rr, cafs, cares, temp];
    assert Body(prefix + code) == code;
    UnpackOf(prefix + code, Settings(n, fs, res, hp, FlagVal(rr), afs, ares, FlagVal(temp)));
  }

  /** mode_to_str once each reverse lookup is known to succeed. */
  lemma ModeToStrOf(ecgN: string, ecgFs: string, ecgRes: string, ecgHp: string,
                    rr: string, accFs: string, accRes: string, temp: string,
                    cfs: char, cres: char, chp: char, cafs: char, cares: char)
    requires InvLookup(EcgFsTable(), ecgFs) == Some(cfs) && InvLookup(EcgResTable(), ecgRes) == Some(cres)
    requires InvLookup(EcgHpTable(), ecgHp) == Some(chp) && InvLookup(AccFsTable(), accFs) == Some(cafs)
    requires InvLookup(AccResTable(), accRes) == Some(cares)
    ensures ModeToStr(ecgN, ecgFs, ecgRes, ecgHp, rr, accFs, accRes, temp)
            == Ok(ecgN + [cfs, cres, chp] + rr + [cafs, cares] + temp)
  {
  }

  /** The character of `t` whose value is `v`, with both lookups agreeing on it. */
  lemma RoundTripAt(t: Table, v: Val) returns (c: char)
    requires DistinctKeys(t) && DistinctRenderings(t) && v in Values(t)
    ensures InvLookup(t, Str(v)) == Some(c) && Lookup(t, c) == Some(v)
  {
    var i :| 0 <= i < |t| && t[i].1 == v;
    c := t[i].0;
    InvLookupAt(t, i);
    LookupAt(t, i);
  }

  /** Position `i` of a decoded body reverse-looks-up to the character it was decoded from. */
  lemma InverseAt(b: string, i: nat, v: Val)
    requires 1 <= i <= 7 && i < |b| && Lookup(TableAt(i), b[i]) == Some(v)
    ensures InvLookup(TableAt(i), Str(v)) == Some(b[i])
  {
    TablesBijective(i);
    TableRoundTrip(TableAt(i), b[i], "");
  }

  /**
   * Round trip from a string: re-encoding what unpack_settings decoded, with
   * 'on'/'off' written back as '1'/'0', gives back the 8 characters after the prefix.
   */
  lemma DecodeThenEncode(s: string)
    requires UnpackSettings(s).Ok?
    ensures var st := UnpackSettings(s).value;
            ModeToStr([st.nEcg], Str(st.ecgFs), Str(st.ecgRes), Str(st.ecgHp), [FlagChar(st.ecgRr)],
                      Str(st.accFs), Str(st.accRes), [FlagChar(st.temperature)])
            == Ok(s[3..11])
  {
    var st := UnpackSettings(s).value;
    var b := Body(s);
    InverseAt(b, 1, st.ecgFs);
    InverseAt(b, 2, st.ecgRes);
    InverseAt(b, 3, st.ecgHp);
    InverseAt(b, 5, st.accFs);
    InverseAt(b, 6, st.accRes);
    assert Lookup(TableAt(4), b[4]) == Some(st.ecgRr);
    assert Lookup(TableAt(7), b[7]) == Some(st.temperature);
    FlagTables(b[4]);
    FlagTables(b[7]);
    ModeToStrCode(st.nEcg, Str(st.ecgFs), Str(st.ecgRes), Str(st.ecgHp), FlagChar(st.ecgRr),
                  Str(st.accFs), Str(st.accRes), FlagChar(st.temperature), b[1], b[2], b[3], b[5], b[6]);
    assert FlagChar(st.ecgRr) == b[4] && FlagChar(st.temperature) == b[7];
    assert s[3..11] == [b[0], b[1], b[2], b[3], b[4], b[5], b[6], b[7]];
  }
}
