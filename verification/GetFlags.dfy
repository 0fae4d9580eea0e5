/** The command-line option parser, for flags and for options that take a text. */
module GetFlags {
  import opened Options

  // ----- descriptors

  /** A descriptor says yes or no, or takes a value. */
  datatype Kind = Flag | Text

  datatype Descriptor = Descriptor(name: string, kind: Kind)

  /** What was found out about one descriptor. */
  datatype Setting = Unset | Yes | Value(text: string)

  predicate Special(c: char) {
    c == '*' || c == '#' || c == ','
  }

  /** Names are letters, and a flag has one. */
  ghost predicate Proper(ds: seq<Descriptor>) {
    forall k: nat | k < |ds| ::
      && (forall i | 0 <= i < |ds[k].name| :: !Special(ds[k].name[i]))
      && (ds[k].kind.Flag? ==> ds[k].name != "")
  }

  function Piece(d: Descriptor): string {
    d.name + if d.kind.Text? then "*" else ""
  }

  /** The format string of a series of descriptors. */
  function Format(ds: seq<Descriptor>): string {
    if ds == [] then ""
    else if |ds| == 1 then Piece(ds[0])
    else Piece(ds[0]) + ("," + Format(ds[1..]))
  }

  // ----- which descriptor a text is taken for

  predicate Matches(d: Descriptor, text: string) {
    d.name <= text
  }

  /** The first descriptor from the `k`th on that a text starts with the name of. */
  function FirstMatch(ds: seq<Descriptor>, k: nat, text: string): (found: Option<nat>)
    requires k <= |ds|
    ensures found.Some? ==> k <= found.value < |ds| && Matches(ds[found.value], text)
    ensures forall j: nat | k <= j < (if found.Some? then found.value else |ds|) :: !Matches(ds[j], text)
    decreases |ds| - k
  {
    if k == |ds| then None else if Matches(ds[k], text) then Some(k) else FirstMatch(ds, k + 1, text)
  }

  /** No name comes before one that it is a beginning of. */
  ghost predicate Ordered(ds: seq<Descriptor>) {
    forall i: nat, j: nat | i < j < |ds| :: !(ds[i].name <= ds[j].name)
  }

  /** Whatever the text, no name that it starts with is longer than the one it is taken for. */
  ghost predicate TakesLongest(ds: seq<Descriptor>) {
    forall text: string, j: nat :: j < |ds| && Matches(ds[j], text) ==>
      FirstMatch(ds, 0, text).Some? && |ds[j].name| <= |ds[FirstMatch(ds, 0, text).value].name|
  }

  lemma {:induction false} PrefixesOfOne(a: string, b: string, text: string)
    requires a <= text && b <= text && |a| <= |b|
    ensures a <= b
  {
    assert a == text[..|a|] && b == text[..|b|];
  }

  /** With different names, the longest is always taken exactly when the descriptors are in the
      order that the manual asks for. */
  lemma {:induction false} TakesLongestIffOrdered(ds: seq<Descriptor>)
    requires forall i: nat, j: nat | i < j < |ds| :: ds[i].name != ds[j].name
    ensures TakesLongest(ds) <==> Ordered(ds)
  {
    if Ordered(ds) {
      forall text: string, j: nat | j < |ds| && Matches(ds[j], text)
        ensures FirstMatch(ds, 0, text).Some? && |ds[j].name| <= |ds[FirstMatch(ds, 0, text).value].name|
      {
        var k := FirstMatch(ds, 0, text).value;
        if |ds[k].name| <= |ds[j].name| && k != j {
          PrefixesOfOne(ds[k].name, ds[j].name, text);
        }
      }
    }
    if TakesLongest(ds) {
      forall i: nat, j: nat | i < j < |ds| ensures !(ds[i].name <= ds[j].name) {
        if ds[i].name <= ds[j].name {
          var k := NameTakenFor(ds, i, j);
        }
      }
    }
  }

  lemma {:induction false} NameTakenFor(ds: seq<Descriptor>, i: nat, j: nat) returns (k: nat)
    requires TakesLongest(ds) && i < j < |ds| && ds[i].name <= ds[j].name
    ensures k < j && ds[k].name == ds[j].name
  {
    var text := ds[j].name;
    assert Matches(ds[i], text) && Matches(ds[j], text);
    k := FirstMatch(ds, 0, text).value;
    assert |text| <= |ds[k].name|;
  }

  // ----- what the arguments say

  /** The argument reached, what was found out, and the argument that is no good. */
  datatype Result = Result(at: nat, settings: seq<Setting>, bad: Option<string>)

  /** The flags of argument `at`, the part `text` of which is left. */
  function TakeWord(ds: seq<Descriptor>, argv: seq<string>, at: nat, text: string, settings: seq<Setting>): (r: Result)
    requires at < |argv| && |settings| == |ds|
    requires forall k: nat | k < |ds| :: ds[k].kind.Flag? ==> ds[k].name != ""
    ensures at <= r.at < |argv| && |r.settings| == |ds|
    decreases |text|
  {
    if text == "" then Result(at, settings, None)
    else match FirstMatch(ds, 0, text)
      case None => Result(at, settings, Some(argv[at]))
      case Some(k) =>
        var n := |ds[k].name|;
        if ds[k].kind.Flag? then TakeWord(ds, argv, at, text[n..], settings[k := Yes])
        else if n < |text| then Result(at, settings[k := Value(text[n..])], None)
        else if at + 1 < |argv| then Result(at + 1, settings[k := Value(argv[at + 1])], None)
        else Result(at, settings, Some(argv[at]))
  }

  /** The arguments from `at` on, up to the first that is no flag. */
  function TakeArgs(ds: seq<Descriptor>, argv: seq<string>, at: nat, settings: seq<Setting>): (r: Result)
    requires at <= |argv| && |settings| == |ds|
    requires forall k: nat | k < |ds| :: ds[k].kind.Flag? ==> ds[k].name != ""
    ensures at <= r.at <= |argv| && |r.settings| == |ds|
    decreases |argv| - at
  {
    if at == |argv| || argv[at] == "" || argv[at][0] != '-' || argv[at] == "-" then Result(at, settings, None)
    else if argv[at] == "--" then Result(at + 1, settings, None)
    else
      var r := TakeWord(ds, argv, at, argv[at][1..], settings);
      if r.bad.Some? then r else TakeArgs(ds, argv, r.at + 1, r.settings)
  }

  // ----- reading the format string

  /** The format string from descriptor `k` on, with the comma that parts it from the one
      before. */
  function FormatFrom(ds: seq<Descriptor>, k: nat): string
    requires k <= |ds|
  {
    if k == |ds| then "" else (if k == 0 then "" else ",") + Format(ds[k..])
  }

  lemma {:induction false} FormatNext(ds: seq<Descriptor>, k: nat)
    requires k < |ds|
    ensures Format(ds[k..]) == Piece(ds[k]) + FormatFrom(ds, k + 1)
  {
    assert ds[k..][1..] == ds[k + 1..];
  }

  /** How far a text goes before the first special character. */
  method NameLength(q: string) returns (n: nat)
    ensures n <= |q| && (n < |q| ==> Special(q[n])) && forall i | 0 <= i < n :: !Special(q[i])
  {
    n := 0;
    while n < |q| && !Special(q[n])
      invariant n <= |q| && forall i | 0 <= i < n :: !Special(q[i])
    {
      n := n + 1;
    }
  }

  /** A text from its first comma on. */
  method FromComma(q: string) returns (p: string)
    ensures exists n: nat :: n <= |q| && p == q[n..] && ',' !in q[..n] && (p != "" ==> p[0] == ',')
  {
    var n: nat := 0;
    while n < |q| && q[n] != ','
      invariant n <= |q| && ',' !in q[..n]
    {
      n := n + 1;
    }
    p := q[n..];
  }

  lemma {:induction false} CommaIsUnique(a: string, b: string, n: nat, s: string)
    requires s == a + b && ',' !in a && (b != "" ==> b[0] == ',')
    requires n <= |s| && ',' !in s[..n] && (s[n..] != "" ==> s[n..][0] == ',')
    ensures s[n..] == b
  {
    CommaIsIn(s, |a|, n);
  }

  lemma {:induction false} CommaIsIn(s: string, k: nat, n: nat)
    ensures k < n <= |s| && s[k] == ',' ==> ',' in s[..n]
  {
    if k < n <= |s| && s[k] == ',' {
      assert s[..n][k] == ',';
    }
  }

  lemma {:induction false} CommaFound(a: string, b: string, s: string, p: string)
    requires s == a + b && ',' !in a && (b != "" ==> b[0] == ',')
    requires exists n: nat :: n <= |s| && p == s[n..] && ',' !in s[..n] && (p != "" ==> p[0] == ',')
    ensures p == b
  {
    var n: nat :| n <= |s| && p == s[n..] && ',' !in s[..n] && (p != "" ==> p[0] == ',');
    CommaIsUnique(a, b, n, s);
  }

  /** A name ends at the first special character of its piece of the format string. */
  lemma {:induction false} NameEnds(d: Descriptor, tail: string, n: nat)
    requires forall i | 0 <= i < |d.name| :: !Special(d.name[i])
    requires tail != "" ==> tail[0] == ','
    requires var q := Piece(d) + tail;
             n <= |q| && (n < |q| ==> Special(q[n])) && forall i | 0 <= i < n :: !Special(q[i])
    ensures var q := Piece(d) + tail;
            n == |d.name| && q[..n] == d.name && (d.kind.Text? <==> n < |q| && q[n] == '*')
    ensures ',' !in Piece(d)
  {
    var q, k := Piece(d) + tail, |d.name|;
    assert forall i | 0 <= i < k :: q[i] == d.name[i];
    if k < |q| {
      assert Special(q[k]);
    }
  }

  /** At descriptor `k` the format string has its piece, after a comma unless it is the first. */
  lemma {:induction false} PieceIsNext(ds: seq<Descriptor>, k: nat)
    requires Proper(ds) && k <= |ds|
    ensures var q := FormatFrom(ds, k);
            && (q != "" <==> k < |ds|)
            && (k < |ds| ==> (if q[0] == ',' then q[1..] else q) == Piece(ds[k]) + FormatFrom(ds, k + 1))
            && (q != "" && k > 0 ==> q[0] == ',')
  {
    if k < |ds| {
      FormatNext(ds, k);
      var p := Piece(ds[k]);
      assert p != "" && p[0] != ',';
    }
  }

  /** Does a text start with the name of descriptor `d`, whose piece of the format string is at
      `q`? Gives the length of the name, the kind, and where the next piece is. */
  method TryPiece(q: string, psrc: string, ghost d: Descriptor, ghost tail: string)
    returns (matched: bool, n: nat, kind: Kind, q': string)
    requires q == Piece(d) + tail && (tail != "" ==> tail[0] == ',')
    requires forall i | 0 <= i < |d.name| :: !Special(d.name[i])
    ensures (matched <==> Matches(d, psrc)) && n == |d.name| && kind == d.kind && q' == tail
  {
    n := NameLength(q);
    NameEnds(d, tail, n);
    kind := if n < |q| && q[n] == '*' then Text else Flag;
    matched := n <= |psrc| && psrc[..n] == q[..n];
    q' := FromComma(q);
    CommaFound(Piece(d), tail, q, q');
  }

  /** Finds the first descriptor that a text starts with the name of, and the length of the
      name; pointers into strings are what they point to. */
  method FindDescriptor(fmt: string, psrc: string, ghost ds: seq<Descriptor>)
    returns (found: bool, k: nat, n: nat, kind: Kind)
    requires fmt == Format(ds) && Proper(ds)
    ensures match FirstMatch(ds, 0, psrc)
            case None => !found
            case Some(m) => found && k == m && n == |ds[k].name| && kind == ds[k].kind
  {
    var q := fmt;
    assert ds[0..] == ds;
    PieceIsNext(ds, 0);
    found, k, n, kind := false, 0, 0, Flag;
    while q != "" && !found
      invariant k <= |ds| && (q != "" && !found ==> k < |ds|)
      invariant found ==> k < |ds| && FirstMatch(ds, 0, psrc) == Some(k) && n == |ds[k].name| && kind == ds[k].kind
      invariant !found ==> q == FormatFrom(ds, k) && FirstMatch(ds, 0, psrc) == FirstMatch(ds, k, psrc)
      decreases |ds| - k, !found
    {
      PieceIsNext(ds, k);
      PieceIsNext(ds, k + 1);
      if q[0] == ',' {
        q := q[1..];
      }
      found, n, kind, q := TryPiece(q, psrc, ds[k], FormatFrom(ds, k + 1));
      if !found {
        k := k + 1;
      }
    }
  }

  // ----- the parser

  /** The flags of argument `av`, from its part `psrc` on; `ac` counts the arguments not yet
      consumed. */
  method ScanWord(fmt: string, argv: seq<string>, ac: nat, av: nat, text: string, settings: array<Setting>,
                  ghost ds: seq<Descriptor>)
    returns (ac': nat, av': nat, bad: Option<string>)
    requires fmt == Format(ds) && Proper(ds) && settings.Length == |ds| && av < |argv| && av + ac == |argv|
    modifies settings
    ensures av' + ac' == |argv|
    ensures Result(av', settings[..], bad) == TakeWord(ds, argv, av, text, old(settings[..]))
  {
    ac', av', bad := ac, av, None;
    var lastwhole, psrc := argv[av], text;
    while psrc != ""
      invariant av' == av && ac' == ac && bad == None && settings.Length == |ds|
      invariant TakeWord(ds, argv, av, psrc, settings[..]) == TakeWord(ds, argv, av, text, old(settings[..]))
      decreases |psrc|
    {
      var found, k, n, kind := FindDescriptor(fmt, psrc, ds);
      if !found {
        bad := Some(lastwhole);
        return;
      }
      if kind.Flag? {
        settings[k] := Yes;
        psrc := psrc[n..];
      } else if n < |psrc| {
        settings[k] := Value(psrc[n..]);
        return;
      } else if av' + 1 < |argv| {
        av' := av' + 1;
        ac' := ac' - 1;
        settings[k] := Value(argv[av']);
        return;
      } else {
        bad := Some(lastwhole);
        return;
      }
    }
  }

  lemma {:induction false} ArgumentIsRead(ds: seq<Descriptor>, argv: seq<string>, at: nat, settings: seq<Setting>)
    requires Proper(ds) && |settings| == |ds| && at < |argv|
    requires argv[at] != "" && argv[at][0] == '-' && argv[at] != "-" && argv[at] != "--"
    ensures var r := TakeWord(ds, argv, at, argv[at][1..], settings);
            TakeArgs(ds, argv, at, settings) == if r.bad.Some? then r else TakeArgs(ds, argv, r.at + 1, r.settings)
  {
  }

  /** Parses the arguments after the first; gives how many are left, where they start, and the
      argument that is no good. */
  method GetFlags(fmt: string, argv: seq<string>, settings: array<Setting>, ghost ds: seq<Descriptor>)
    returns (ac: nat, av: nat, bad: Option<string>)
    requires fmt == Format(ds) && Proper(ds) && settings.Length == |ds| && argv != []
    modifies settings
    ensures av + ac == |argv|
    ensures Result(av, settings[..], bad) == TakeArgs(ds, argv, 1, old(settings[..]))
    ensures exists gs: seq<Group> :: Parsed(ds, argv, 1, old(settings[..]), gs, Result(av, settings[..], bad))
  {
    ac, av, bad := ScanArgs(fmt, argv, settings, ds);
    ParsedIff(ds, argv, 1, old(settings[..]), Result(av, settings[..], bad));
  }

  method ScanArgs(fmt: string, argv: seq<string>, settings: array<Setting>, ghost ds: seq<Descriptor>)
    returns (ac: nat, av: nat, bad: Option<string>)
    requires fmt == Format(ds) && Proper(ds) && settings.Length == |ds| && argv != []
    modifies settings
    ensures av + ac == |argv|
    ensures Result(av, settings[..], bad) == TakeArgs(ds, argv, 1, old(settings[..]))
  {
    ac, av, bad := |argv| - 1, 1, None;
    ghost var goal := TakeArgs(ds, argv, 1, settings[..]);
    while ac > 0
      invariant av + ac == |argv| && bad == None && settings.Length == |ds|
      invariant TakeArgs(ds, argv, av, settings[..]) == goal
      decreases ac
    {
      if argv[av] == "" || argv[av][0] != '-' {
        break;
      }
      if argv[av] == "--" {
        ac, av := ac - 1, av + 1;
        break;
      } else if argv[av] == "-" {
        break;
      }
      ArgumentIsRead(ds, argv, av, settings[..]);
      ghost var read := TakeWord(ds, argv, av, argv[av][1..], settings[..]);
      ac, av, bad := ScanWord(fmt, argv, ac, av, argv[av][1..], settings, ds);
      assert Result(av, settings[..], bad) == read;
      if bad.Some? {
        return;
      }
      ac, av := ac - 1, av + 1;
    }
  }

  // ----- spelling settings out

  /** One setting to be made: the descriptor, and its value if it takes one. */
  datatype Use = Use(k: nat, value: string)

  ghost predicate Usable(ds: seq<Descriptor>, u: Use) {
    u.k < |ds| && ds[u.k].name != "" && ds[u.k].name != "-"
  }

  /** The arguments that make a setting. */
  function Spelled(ds: seq<Descriptor>, u: Use): seq<string>
    requires u.k < |ds|
  {
    ["-" + ds[u.k].name] + if ds[u.k].kind.Flag? then [] else [u.value]
  }

  function Made(ds: seq<Descriptor>, settings: seq<Setting>, u: Use): seq<Setting>
    requires u.k < |ds| == |settings|
  {
    settings[u.k := if ds[u.k].kind.Flag? then Yes else Value(u.value)]
  }

  ghost function Spell(ds: seq<Descriptor>, us: seq<Use>): seq<string>
    requires forall i | 0 <= i < |us| :: us[i].k < |ds|
  {
    if us == [] then [] else Spelled(ds, us[0]) + Spell(ds, us[1..])
  }

  ghost function MadeAll(ds: seq<Descriptor>, settings: seq<Setting>, us: seq<Use>): (r: seq<Setting>)
    requires |settings| == |ds| && forall i | 0 <= i < |us| :: us[i].k < |ds|
    ensures |r| == |ds|
    decreases |us|
  {
    if us == [] then settings else MadeAll(ds, Made(ds, settings, us[0]), us[1..])
  }

  /** A series of arguments is found from place `at` on. */
  predicate HasAt(argv: seq<string>, at: nat, part: seq<string>) {
    at + |part| <= |argv| && argv[at..at + |part|] == part
  }

  lemma {:induction false} HasParts(argv: seq<string>, at: nat, a: seq<string>, b: seq<string>)
    requires HasAt(argv, at, a + b)
    ensures HasAt(argv, at, a) && HasAt(argv, at + |a|, b)
  {
    var all := argv[at..at + |a + b|];
    assert all[..|a|] == a && argv[at..at + |a|] == all[..|a|];
    assert all[|a|..] == b && argv[at + |a|..at + |a| + |b|] == all[|a|..];
  }

  /** A whole name is taken for its own descriptor. */
  lemma {:induction false} NameIsItsOwn(ds: seq<Descriptor>, k: nat)
    requires Ordered(ds) && k < |ds|
    ensures FirstMatch(ds, 0, ds[k].name) == Some(k)
  {
    assert Matches(ds[k], ds[k].name);
    var m := FirstMatch(ds, 0, ds[k].name).value;
    assert ds[m].name <= ds[k].name;
  }

  lemma {:induction false} UseIsUnderstood(ds: seq<Descriptor>, u: Use, argv: seq<string>, at: nat, end: nat,
                                           settings: seq<Setting>)
    requires Proper(ds) && Ordered(ds) && Usable(ds, u) && |settings| == |ds|
    requires HasAt(argv, at, Spelled(ds, u)) && end == at + |Spelled(ds, u)|
    ensures TakeArgs(ds, argv, at, settings) == TakeArgs(ds, argv, end, Made(ds, settings, u))
  {
    var name := ds[u.k].name;
    var n := |Spelled(ds, u)|;
    assert argv[at] == argv[at..at + n][0] == "-" + name;
    assert argv[at][1..] == name && "--"[1..] == "-";
    NameIsItsOwn(ds, u.k);
    if ds[u.k].kind.Flag? {
      assert name[|name|..] == "";
      assert TakeWord(ds, argv, at, "", Made(ds, settings, u)) == Result(at, Made(ds, settings, u), None);
    } else {
      assert argv[at + 1] == argv[at..at + n][1] == u.value;
    }
  }

  lemma {:induction false} FirstUseIsThere(ds: seq<Descriptor>, us: seq<Use>, argv: seq<string>, at: nat,
                                           first: seq<string>, rest: seq<string>)
    requires us != [] && forall i | 0 <= i < |us| :: us[i].k < |ds|
    requires HasAt(argv, at, Spell(ds, us)) && first == Spelled(ds, us[0]) && rest == Spell(ds, us[1..])
    ensures HasAt(argv, at, first) && HasAt(argv, at + |first|, rest) && |Spell(ds, us)| == |first| + |rest|
  {
    HasParts(argv, at, first, rest);
  }

  /** Settings that are spelled out, one by one, are made in their order, and parsing goes on after
      them, when the descriptors are in the order that the manual asks for. */
  lemma {:induction false} UsesAreUnderstood(ds: seq<Descriptor>, us: seq<Use>, argv: seq<string>, at: nat, end: nat,
                                             settings: seq<Setting>)
    requires Proper(ds) && Ordered(ds) && |settings| == |ds|
    requires forall i | 0 <= i < |us| :: us[i].k < |ds| && Usable(ds, us[i])
    requires HasAt(argv, at, Spell(ds, us)) && end == at + |Spell(ds, us)|
    ensures TakeArgs(ds, argv, at, settings) == TakeArgs(ds, argv, end, MadeAll(ds, settings, us))
    decreases |us|
  {
    if us != [] {
      var next, settings' := at + |Spelled(ds, us[0])|, Made(ds, settings, us[0]);
      FirstUseIsThere(ds, us, argv, at, Spelled(ds, us[0]), Spell(ds, us[1..]));
      UseIsUnderstood(ds, us[0], argv, at, next, settings);
      UsesAreUnderstood(ds, us[1..], argv, next, end, settings');
    }
  }

  // ----- several settings in one argument

  /** No name is a beginning of another. */
  ghost predicate PrefixCode(ds: seq<Descriptor>) {
    forall i: nat, j: nat | i < |ds| && j < |ds| && i != j :: !(ds[i].name <= ds[j].name)
  }

  /** Every name is taken for its own descriptor, whatever comes after it. */
  ghost predicate StandsOut(ds: seq<Descriptor>) {
    forall k: nat, rest: string :: k < |ds| ==> FirstMatch(ds, 0, ds[k].name + rest) == Some(k)
  }

  /** Names can be followed by anything exactly when none is a beginning of another; the order that
      the manual asks for is not enough for that. */
  lemma {:induction false} StandsOutIffPrefixCode(ds: seq<Descriptor>)
    ensures StandsOut(ds) <==> PrefixCode(ds)
  {
    if PrefixCode(ds) {
      forall k: nat, rest: string | k < |ds| ensures FirstMatch(ds, 0, ds[k].name + rest) == Some(k) {
        NameStandsOut(ds, k, rest);
      }
    }
    if StandsOut(ds) {
      forall i: nat, j: nat | i < |ds| && j < |ds| && i != j ensures !(ds[i].name <= ds[j].name) {
        if ds[i].name <= ds[j].name {
          OneNameBegins(ds, i, j);
        }
      }
    }
  }

  lemma {:induction false} OneNameBegins(ds: seq<Descriptor>, i: nat, j: nat)
    requires StandsOut(ds) && i < |ds| && j < |ds| && ds[i].name <= ds[j].name
    ensures i == j
  {
    var rest := ds[j].name[|ds[i].name|..];
    assert ds[i].name + rest == ds[j].name == ds[j].name + "";
    assert FirstMatch(ds, 0, ds[i].name + rest) == Some(i) && FirstMatch(ds, 0, ds[j].name + "") == Some(j);
  }

  lemma {:induction false} NameStandsOut(ds: seq<Descriptor>, k: nat, rest: string)
    requires PrefixCode(ds) && k < |ds|
    ensures FirstMatch(ds, 0, ds[k].name + rest) == Some(k)
  {
    var text := ds[k].name + rest;
    assert Matches(ds[k], text);
    var m := FirstMatch(ds, 0, text).value;
    if m != k {
      if |ds[m].name| <= |ds[k].name| {
        PrefixesOfOne(ds[m].name, ds[k].name, text);
      } else {
        PrefixesOfOne(ds[k].name, ds[m].name, text);
      }
    }
  }

  /** No name that goes on from name `k` is a beginning of name `k` with `rest` after it. */
  ghost predicate ClearAt(ds: seq<Descriptor>, k: nat, rest: string)
    requires k < |ds|
  {
    forall m: nat :: m < |ds| && ds[k].name < ds[m].name ==> !(ds[m].name <= ds[k].name + rest)
  }

  /** In the manual's order a name is taken for its own descriptor exactly when it is clear there. */
  lemma {:induction false} OwnNameIffClear(ds: seq<Descriptor>, k: nat, rest: string)
    requires Ordered(ds) && k < |ds|
    ensures FirstMatch(ds, 0, ds[k].name + rest) == Some(k) <==> ClearAt(ds, k, rest)
  {
    var text := ds[k].name + rest;
    assert Matches(ds[k], text);
    var m := FirstMatch(ds, 0, text).value;
    if m != k {
      if |ds[m].name| <= |ds[k].name| {
        PrefixesOfOne(ds[m].name, ds[k].name, text);
      } else {
        PrefixesOfOne(ds[k].name, ds[m].name, text);
        assert ds[k].name < ds[m].name;
      }
    } else {
      forall m: nat | m < |ds| && ds[k].name < ds[m].name ensures !(ds[m].name <= text) {
        assert m < k ==> !Matches(ds[m], text);
      }
    }
  }

  lemma {:induction false} PrefixCodeIsClear(ds: seq<Descriptor>)
    requires PrefixCode(ds)
    ensures Ordered(ds) && forall k: nat, rest: string | k < |ds| :: ClearAt(ds, k, rest)
  {
  }

  /** Descriptors in the right order, and two flags run together that are taken for a third. */
  lemma {:induction false} RunTogetherMistaken()
    ensures var ds := [Descriptor("st", Flag), Descriptor("s", Flag), Descriptor("t", Flag)];
            Proper(ds) && Ordered(ds) && ds[1].name + ds[2].name == "st" && FirstMatch(ds, 0, "st") == Some(0)
  {
    assert "s" + "t" == "st" && "s"[0] != "t"[0];
    var ds := [Descriptor("st", Flag), Descriptor("s", Flag), Descriptor("t", Flag)];
    assert Matches(ds[0], "st") && ds[1].name[0] != ds[2].name[0];
  }

  /** What comes last in an argument: a name with its value right after it, or in the next argument. */
  datatype Tail = NoTail | Attached(k: nat, value: string) | Separate(k: nat, value: string)

  /** Settings made by one argument: flags, and at most one value. */
  datatype Group = Group(flags: seq<nat>, tail: Tail)

  ghost predicate FlagsOf(ds: seq<Descriptor>, flags: seq<nat>) {
    forall i | 0 <= i < |flags| :: flags[i] < |ds| && ds[flags[i]].kind.Flag?
  }

  ghost predicate TailOf(ds: seq<Descriptor>, tail: Tail) {
    match tail
    case NoTail => true
    case Attached(k, value) => k < |ds| && ds[k].kind.Text? && value != ""
    case Separate(k, _) => k < |ds| && ds[k].kind.Text? && ds[k].name != ""
  }

  /** An argument as it is spelled after its `-`. */
  function Word(ds: seq<Descriptor>, flags: seq<nat>, tail: Tail): string
    requires FlagsOf(ds, flags) && TailOf(ds, tail)
  {
    if flags != [] then ds[flags[0]].name + Word(ds, flags[1..], tail)
    else
      match tail
      case NoTail => ""
      case Attached(k, value) => ds[k].name + value
      case Separate(k, _) => ds[k].name
  }

  function NextWord(tail: Tail): seq<string> {
    if tail.Separate? then [tail.value] else []
  }

  /** The settings that the flags and the value make. */
  function WordMade(ds: seq<Descriptor>, settings: seq<Setting>, flags: seq<nat>, tail: Tail): (r: seq<Setting>)
    requires FlagsOf(ds, flags) && TailOf(ds, tail) && |settings| == |ds|
    ensures |r| == |ds|
    decreases |flags|
  {
    if flags != [] then WordMade(ds, settings[flags[0] := Yes], flags[1..], tail)
    else if tail.NoTail? then settings
    else settings[tail.k := Value(tail.value)]
  }

  /** The arguments that make the settings of a group: not `-` nor `--`, which are no flags. */
  ghost predicate Groups(ds: seq<Descriptor>, g: Group) {
    FlagsOf(ds, g.flags) && TailOf(ds, g.tail) && Word(ds, g.flags, g.tail) != "" && Word(ds, g.flags, g.tail) != "-"
  }

  function SpelledGroup(ds: seq<Descriptor>, g: Group): seq<string>
    requires Groups(ds, g)
  {
    ["-" + Word(ds, g.flags, g.tail)] + NextWord(g.tail)
  }

  function GroupMade(ds: seq<Descriptor>, settings: seq<Setting>, g: Group): (r: seq<Setting>)
    requires Groups(ds, g) && |settings| == |ds|
    ensures |r| == |ds|
  {
    WordMade(ds, settings, g.flags, g.tail)
  }

  /** Every flag and the value of a word are clear where they stand. */
  ghost predicate Clear(ds: seq<Descriptor>, flags: seq<nat>, tail: Tail)
    requires FlagsOf(ds, flags) && TailOf(ds, tail)
    decreases |flags|
  {
    if flags != [] then ClearAt(ds, flags[0], Word(ds, flags[1..], tail)) && Clear(ds, flags[1..], tail)
    else tail.Attached? ==> ClearAt(ds, tail.k, tail.value)
  }

  /** Step by step, every name of a word is taken for its own descriptor. */
  ghost predicate TakenStepwise(ds: seq<Descriptor>, flags: seq<nat>, tail: Tail)
    requires FlagsOf(ds, flags) && TailOf(ds, tail)
    decreases |flags|
  {
    var text := Word(ds, flags, tail);
    if flags != [] then FirstMatch(ds, 0, text) == Some(flags[0]) && TakenStepwise(ds, flags[1..], tail)
    else !tail.NoTail? ==> FirstMatch(ds, 0, text) == Some(tail.k)
  }

  /** In the manual's order a word is taken apart as it was put together exactly when it is clear. */
  lemma {:induction false} TakenStepwiseIffClear(ds: seq<Descriptor>, flags: seq<nat>, tail: Tail)
    requires Ordered(ds) && FlagsOf(ds, flags) && TailOf(ds, tail)
    ensures TakenStepwise(ds, flags, tail) <==> Clear(ds, flags, tail)
    decreases |flags|
  {
    if flags != [] {
      OwnNameIffClear(ds, flags[0], Word(ds, flags[1..], tail));
      TakenStepwiseIffClear(ds, flags[1..], tail);
    } else if tail.Attached? {
      OwnNameIffClear(ds, tail.k, tail.value);
    } else if tail.Separate? {
      NameIsItsOwn(ds, tail.k);
    }
  }

  lemma {:induction false} WordIsUnderstood(ds: seq<Descriptor>, argv: seq<string>, at: nat, flags: seq<nat>,
                                            tail: Tail,
                                            settings: seq<Setting>)
    requires Proper(ds) && FlagsOf(ds, flags) && TailOf(ds, tail) && |settings| == |ds|
    requires TakenStepwise(ds, flags, tail)
    requires at < |argv| && (tail.Separate? ==> at + 1 < |argv| && argv[at + 1] == tail.value)
    ensures TakeWord(ds, argv, at, Word(ds, flags, tail), settings)
         == Result(at + |NextWord(tail)|, WordMade(ds, settings, flags, tail), None)
    decreases |flags|
  {
    if flags != [] {
      var k, rest := flags[0], Word(ds, flags[1..], tail);
      assert (ds[k].name + rest)[|ds[k].name|..] == rest;
      WordIsUnderstood(ds, argv, at, flags[1..], tail, settings[k := Yes]);
    } else if tail.Attached? {
      assert (ds[tail.k].name + tail.value)[|ds[tail.k].name|..] == tail.value;
    }
  }

  lemma {:induction false} GroupIsUnderstood(ds: seq<Descriptor>, g: Group, argv: seq<string>, at: nat, end: nat,
                                             settings: seq<Setting>)
    requires Proper(ds) && Groups(ds, g) && TakenStepwise(ds, g.flags, g.tail) && |settings| == |ds|
    requires HasAt(argv, at, SpelledGroup(ds, g)) && end == at + |SpelledGroup(ds, g)|
    ensures TakeArgs(ds, argv, at, settings) == TakeArgs(ds, argv, end, GroupMade(ds, settings, g))
  {
    var word := Word(ds, g.flags, g.tail);
    HasFirst(argv, at, "-" + word, NextWord(g.tail));
    WordIsUnderstood(ds, argv, at, g.flags, g.tail, settings);
    ArgumentIsTaken(ds, argv, at, word, settings, end, GroupMade(ds, settings, g));
  }

  lemma {:induction false} HasFirst(argv: seq<string>, at: nat, first: string, next: seq<string>)
    requires HasAt(argv, at, [first] + next)
    ensures at + |next| < |argv| && argv[at] == first && (next != [] ==> argv[at + 1] == next[0])
  {
    var own := argv[at..at + 1 + |next|];
    assert argv[at] == own[0] && (next != [] ==> argv[at + 1] == own[1]);
  }

  lemma {:induction false} ArgumentIsTaken(ds: seq<Descriptor>, argv: seq<string>, at: nat, word: string,
                                           settings: seq<Setting>, end: nat, settings': seq<Setting>)
    requires Proper(ds) && |settings| == |ds| == |settings'|
    requires at < |argv| && argv[at] == "-" + word && word != "" && word != "-"
    requires 0 < end <= |argv| && TakeWord(ds, argv, at, word, settings) == Result(end - 1, settings', None)
    ensures TakeArgs(ds, argv, at, settings) == TakeArgs(ds, argv, end, settings')
  {
    assert argv[at][1..] == word && "--"[1..] == "-";
  }

  ghost predicate AllGroups(ds: seq<Descriptor>, gs: seq<Group>) {
    gs == [] || (Groups(ds, gs[0]) && AllGroups(ds, gs[1..]))
  }

  ghost predicate AllClear(ds: seq<Descriptor>, gs: seq<Group>)
    requires AllGroups(ds, gs)
  {
    gs == [] || (Clear(ds, gs[0].flags, gs[0].tail) && AllClear(ds, gs[1..]))
  }

  /** Every group is taken apart as it was put together. */
  ghost predicate AllTaken(ds: seq<Descriptor>, gs: seq<Group>)
    requires AllGroups(ds, gs)
  {
    gs == [] || (TakenStepwise(ds, gs[0].flags, gs[0].tail) && AllTaken(ds, gs[1..]))
  }

  lemma {:induction false} ClearGroupsAreTaken(ds: seq<Descriptor>, gs: seq<Group>)
    requires Ordered(ds) && AllGroups(ds, gs)
    ensures AllClear(ds, gs) <==> AllTaken(ds, gs)
    decreases |gs|
  {
    if gs != [] {
      TakenStepwiseIffClear(ds, gs[0].flags, gs[0].tail);
      ClearGroupsAreTaken(ds, gs[1..]);
    }
  }

  ghost function SpellGroups(ds: seq<Descriptor>, gs: seq<Group>): seq<string>
    requires AllGroups(ds, gs)
  {
    if gs == [] then [] else SpelledGroup(ds, gs[0]) + SpellGroups(ds, gs[1..])
  }

  ghost function GroupsMade(ds: seq<Descriptor>, settings: seq<Setting>, gs: seq<Group>): (r: seq<Setting>)
    requires |settings| == |ds| && AllGroups(ds, gs)
    ensures |r| == |ds|
    decreases |gs|
  {
    if gs == [] then settings
    else GroupsMade(ds, GroupMade(ds, settings, gs[0]), gs[1..])
  }

  lemma {:induction false} FirstGroupIsThere(ds: seq<Descriptor>, gs: seq<Group>, argv: seq<string>, at: nat,
                                             first: seq<string>, rest: seq<string>)
    requires gs != [] && AllGroups(ds, gs)
    requires HasAt(argv, at, SpellGroups(ds, gs))
    requires first == SpelledGroup(ds, gs[0]) && rest == SpellGroups(ds, gs[1..])
    ensures HasAt(argv, at, first) && HasAt(argv, at + |first|, rest)
    ensures |SpellGroups(ds, gs)| == |first| + |rest|
  {
    HasParts(argv, at, first, rest);
  }

  lemma {:induction false} GroupsAreTaken(ds: seq<Descriptor>, gs: seq<Group>, argv: seq<string>, at: nat,
                                          end: nat, settings: seq<Setting>)
    requires Proper(ds) && |settings| == |ds| && AllGroups(ds, gs) && AllTaken(ds, gs)
    requires HasAt(argv, at, SpellGroups(ds, gs)) && end == at + |SpellGroups(ds, gs)|
    ensures TakeArgs(ds, argv, at, settings) == TakeArgs(ds, argv, end, GroupsMade(ds, settings, gs))
    decreases |gs|, 1
  {
    if gs != [] {
      var first, rest := SpelledGroup(ds, gs[0]), SpellGroups(ds, gs[1..]);
      GroupsGoOn(ds, gs, argv, at, at + |first|, end, settings, GroupMade(ds, settings, gs[0]), first, rest);
    }
  }

  lemma {:induction false} GroupsGoOn(ds: seq<Descriptor>, gs: seq<Group>, argv: seq<string>, at: nat, next: nat,
                                      end: nat, settings: seq<Setting>, made: seq<Setting>,
                                      first: seq<string>, rest: seq<string>)
    requires Proper(ds) && |settings| == |ds|
    requires gs != [] && AllGroups(ds, gs) && AllTaken(ds, gs) && made == GroupMade(ds, settings, gs[0])
    requires first == SpelledGroup(ds, gs[0]) && rest == SpellGroups(ds, gs[1..])
    requires HasAt(argv, at, SpellGroups(ds, gs)) && next == at + |first| && end == next + |rest|
    ensures TakeArgs(ds, argv, at, settings) == TakeArgs(ds, argv, end, GroupsMade(ds, settings, gs))
    decreases |gs|, 0
  {
    FirstGroupIsThere(ds, gs, argv, at, first, rest);
    GroupIsUnderstood(ds, gs[0], argv, at, next, settings);
    GroupsAreTaken(ds, gs[1..], argv, next, end, made);
  }

  /** Flags run together in one argument, values right after their names and values in arguments of
      their own are all understood, in their order, when each group is clear. */
  lemma {:induction false} GroupsAreUnderstood(ds: seq<Descriptor>, gs: seq<Group>, argv: seq<string>, at: nat,
                                               end: nat, settings: seq<Setting>)
    requires Proper(ds) && Ordered(ds) && |settings| == |ds|
    requires AllGroups(ds, gs) && AllClear(ds, gs)
    requires HasAt(argv, at, SpellGroups(ds, gs)) && end == at + |SpellGroups(ds, gs)|
    ensures TakeArgs(ds, argv, at, settings) == TakeArgs(ds, argv, end, GroupsMade(ds, settings, gs))
  {
    ClearGroupsAreTaken(ds, gs);
    GroupsAreTaken(ds, gs, argv, at, end, settings);
  }

  lemma {:induction false} PrefixCodeGroupIsClear(ds: seq<Descriptor>, flags: seq<nat>, tail: Tail)
    requires PrefixCode(ds) && FlagsOf(ds, flags) && TailOf(ds, tail)
    ensures Clear(ds, flags, tail)
    decreases |flags|
  {
    PrefixCodeIsClear(ds);
    if flags != [] {
      PrefixCodeGroupIsClear(ds, flags[1..], tail);
    }
  }

  lemma {:induction false} PrefixCodeGroupsAreClear(ds: seq<Descriptor>, gs: seq<Group>)
    requires PrefixCode(ds) && AllGroups(ds, gs)
    ensures AllClear(ds, gs)
    decreases |gs|
  {
    if gs != [] {
      PrefixCodeGroupIsClear(ds, gs[0].flags, gs[0].tail);
      PrefixCodeGroupsAreClear(ds, gs[1..]);
    }
  }

  /** When no name is a beginning of another, all groups are clear. */
  lemma {:induction false} PrefixCodeGroupsAreUnderstood(ds: seq<Descriptor>, gs: seq<Group>, argv: seq<string>,
                                                         at: nat, end: nat, settings: seq<Setting>)
    requires Proper(ds) && PrefixCode(ds) && |settings| == |ds|
    requires AllGroups(ds, gs)
    requires HasAt(argv, at, SpellGroups(ds, gs)) && end == at + |SpellGroups(ds, gs)|
    ensures TakeArgs(ds, argv, at, settings) == TakeArgs(ds, argv, end, GroupsMade(ds, settings, gs))
  {
    PrefixCodeIsClear(ds);
    PrefixCodeGroupsAreClear(ds, gs);
    GroupsAreUnderstood(ds, gs, argv, at, end, settings);
  }

  // ----- what is rejected, and where parsing stops

  /** Argument `at` is not there, or is no flag. */
  predicate Stops(argv: seq<string>, at: nat) {
    at >= |argv| || argv[at] == "" || argv[at][0] != '-' || argv[at] == "-"
  }

  /** Flags, and `rest` after them. */
  function FlagText(ds: seq<Descriptor>, flags: seq<nat>, rest: string): string
    requires FlagsOf(ds, flags)
  {
    if flags == [] then rest else ds[flags[0]].name + FlagText(ds, flags[1..], rest)
  }

  /** Step by step, the flags before `rest` are taken for their own descriptors. */
  ghost predicate FlagsTaken(ds: seq<Descriptor>, flags: seq<nat>, rest: string)
    requires FlagsOf(ds, flags)
    decreases |flags|
  {
    flags == [] ||
    (FirstMatch(ds, 0, FlagText(ds, flags, rest)) == Some(flags[0]) && FlagsTaken(ds, flags[1..], rest))
  }

  /** No name begins `rest`; or it is the name of an option that takes a text, and no argument is left
      to be the text. */
  ghost predicate NoOption(ds: seq<Descriptor>, argv: seq<string>, at: nat, rest: string) {
    || (forall m: nat | m < |ds| :: !(ds[m].name <= rest))
    || (at + 1 == |argv| &&
        exists k: nat :: k < |ds| && ds[k].kind.Text? && ds[k].name == rest && FirstMatch(ds, 0, rest) == Some(k))
  }

  /** Argument `at` is no good: flags begin it, and what is left of it is no option. */
  ghost predicate Rejected(ds: seq<Descriptor>, argv: seq<string>, at: nat, flags: seq<nat>, rest: string) {
    && at < |argv| && FlagsOf(ds, flags) && rest != ""
    && argv[at] == "-" + FlagText(ds, flags, rest) && argv[at] != "--"
    && FlagsTaken(ds, flags, rest) && NoOption(ds, argv, at, rest)
  }

  /** What parsing comes to when it has come to argument `end` with `made` settings: it stops before an
      argument that is no flag, after `--`, or at the argument that is no good, whose flags are set. */
  ghost predicate Ends(ds: seq<Descriptor>, argv: seq<string>, end: nat, made: seq<Setting>, r: Result)
    requires |made| == |ds|
  {
    if Stops(argv, end) then r == Result(end, made, None)
    else if argv[end] == "--" then r == Result(end + 1, made, None)
    else exists flags: seq<nat>, rest: string ::
           Rejected(ds, argv, end, flags, rest) && r == Result(end, WordMade(ds, made, flags, NoTail), Some(argv[end]))
  }

  /** The arguments from `at` on are groups, and parsing ends after them. */
  ghost predicate Parsed(ds: seq<Descriptor>, argv: seq<string>, at: nat, settings: seq<Setting>, gs: seq<Group>,
                         r: Result)
    requires |settings| == |ds|
  {
    && AllGroups(ds, gs) && AllTaken(ds, gs) && HasAt(argv, at, SpellGroups(ds, gs))
    && Ends(ds, argv, at + |SpellGroups(ds, gs)|, GroupsMade(ds, settings, gs), r)
  }

  lemma {:induction false} WordIsRejected(ds: seq<Descriptor>, argv: seq<string>, at: nat, flags: seq<nat>,
                                          rest: string, settings: seq<Setting>)
    requires Proper(ds) && FlagsOf(ds, flags) && |settings| == |ds| && at < |argv| && rest != ""
    requires FlagsTaken(ds, flags, rest) && NoOption(ds, argv, at, rest)
    ensures TakeWord(ds, argv, at, FlagText(ds, flags, rest), settings)
         == Result(at, WordMade(ds, settings, flags, NoTail), Some(argv[at]))
    decreases |flags|
  {
    if flags != [] {
      var k, more := flags[0], FlagText(ds, flags[1..], rest);
      assert (ds[k].name + more)[|ds[k].name|..] == more;
      WordIsRejected(ds, argv, at, flags[1..], rest, settings[k := Yes]);
    }
  }

  lemma {:induction false} EndIsTaken(ds: seq<Descriptor>, argv: seq<string>, end: nat, made: seq<Setting>, r: Result)
    requires Proper(ds) && |made| == |ds| && end <= |argv| && Ends(ds, argv, end, made, r)
    ensures r == TakeArgs(ds, argv, end, made)
  {
    if !Stops(argv, end) && argv[end] != "--" {
      var flags: seq<nat>, rest: string :| Rejected(ds, argv, end, flags, rest)
        && r == Result(end, WordMade(ds, made, flags, NoTail), Some(argv[end]));
      assert argv[end][1..] == FlagText(ds, flags, rest);
      WordIsRejected(ds, argv, end, flags, rest, made);
      ArgumentIsRead(ds, argv, end, made);
    }
  }

  /** Any argument is flags and at most one value, or flags and something that is no option. */
  lemma {:induction false} ReadWord(ds: seq<Descriptor>, argv: seq<string>, at: nat, text: string)
    returns (good: bool, flags: seq<nat>, tail: Tail, rest: string)
    requires Proper(ds) && at < |argv|
    ensures FlagsOf(ds, flags) && TailOf(ds, tail)
    ensures good ==> && text == Word(ds, flags, tail) && TakenStepwise(ds, flags, tail)
                     && (tail.Separate? ==> at + 1 < |argv| && argv[at + 1] == tail.value)
    ensures !good ==> && rest != "" && text == FlagText(ds, flags, rest) && FlagsTaken(ds, flags, rest)
                      && NoOption(ds, argv, at, rest)
    decreases |text|
  {
    good, flags, tail, rest := true, [], NoTail, "";
    if text != "" {
      var found := FirstMatch(ds, 0, text);
      if found.None? {
        good, rest := false, text;
      } else {
        var k := found.value;
        var name, more := ds[k].name, text[|ds[k].name|..];
        assert text == name + more;
        if ds[k].kind.Flag? {
          good, flags, tail, rest := ReadWord(ds, argv, at, more);
          var later := flags;
          flags := [k] + later;
          assert flags[1..] == later;
        } else if more != "" {
          tail := Attached(k, more);
        } else if at + 1 < |argv| {
          tail := Separate(k, argv[at + 1]);
        } else {
          good, rest := false, text;
        }
      }
    }
  }

  lemma {:induction false} PartsAreThere(argv: seq<string>, at: nat, a: seq<string>, b: seq<string>)
    requires HasAt(argv, at, a) && HasAt(argv, at + |a|, b)
    ensures HasAt(argv, at, a + b)
  {
    assert argv[at..at + |a + b|] == argv[at..at + |a|] + argv[at + |a|..at + |a| + |b|];
  }

  /** The arguments can be parsed in some way. */
  lemma {:induction false} SomeParse(ds: seq<Descriptor>, argv: seq<string>, at: nat, settings: seq<Setting>)
    returns (gs: seq<Group>, r: Result)
    requires Proper(ds) && |settings| == |ds| && at <= |argv|
    ensures Parsed(ds, argv, at, settings, gs, r)
    decreases |argv| - at, 1
  {
    if Stops(argv, at) {
      gs, r := [], Result(at, settings, None);
    } else if argv[at] == "--" {
      gs, r := [], Result(at + 1, settings, None);
    } else {
      var word := argv[at][1..];
      assert argv[at] == "-" + word;
      var good, flags, tail, rest := ReadWord(ds, argv, at, word);
      if good {
        gs, r := ParseOn(ds, argv, at, settings, Group(flags, tail));
      } else {
        gs, r := [], Result(at, WordMade(ds, settings, flags, NoTail), Some(argv[at]));
        assert Rejected(ds, argv, at, flags, rest);
      }
    }
  }

  lemma {:induction false} ParseOn(ds: seq<Descriptor>, argv: seq<string>, at: nat, settings: seq<Setting>, g: Group)
    returns (gs: seq<Group>, r: Result)
    requires Proper(ds) && |settings| == |ds| && at < |argv|
    requires Groups(ds, g) && TakenStepwise(ds, g.flags, g.tail) && argv[at] == "-" + Word(ds, g.flags, g.tail)
    requires g.tail.Separate? ==> at + 1 < |argv| && argv[at + 1] == g.tail.value
    ensures Parsed(ds, argv, at, settings, gs, r)
    decreases |argv| - at, 0
  {
    var first := SpelledGroup(ds, g);
    assert HasAt(argv, at, first);
    var more;
    more, r := SomeParse(ds, argv, at + |first|, GroupMade(ds, settings, g));
    gs := [g] + more;
    assert gs[1..] == more;
    PartsAreThere(argv, at, first, SpellGroups(ds, more));
  }

  /** What parsing comes to is told by the arguments themselves: they are groups of options up to one that
      is no option, or is no good. */
  lemma {:induction false} ParsedIff(ds: seq<Descriptor>, argv: seq<string>, at: nat, settings: seq<Setting>, r: Result)
    requires Proper(ds) && |settings| == |ds| && at <= |argv|
    ensures r == TakeArgs(ds, argv, at, settings) <==> exists gs: seq<Group> :: Parsed(ds, argv, at, settings, gs, r)
  {
    forall gs: seq<Group>, r': Result | Parsed(ds, argv, at, settings, gs, r')
      ensures r' == TakeArgs(ds, argv, at, settings)
    {
      var end := at + |SpellGroups(ds, gs)|;
      GroupsAreTaken(ds, gs, argv, at, end, settings);
      EndIsTaken(ds, argv, end, GroupsMade(ds, settings, gs), r');
    }
    var gs, r' := SomeParse(ds, argv, at, settings);
  }

  /** The arguments from `at` on are groups up to one that is no good, and what was set before stands. */
  ghost predicate Reports(ds: seq<Descriptor>, argv: seq<string>, at: nat, settings: seq<Setting>, gs: seq<Group>,
                          flags: seq<nat>, rest: string, r: Result)
    requires |settings| == |ds|
  {
    && AllGroups(ds, gs) && AllTaken(ds, gs) && HasAt(argv, at, SpellGroups(ds, gs))
    && Rejected(ds, argv, at + |SpellGroups(ds, gs)|, flags, rest)
    && r.at == at + |SpellGroups(ds, gs)| && r.bad == Some(argv[r.at])
    && r.settings == WordMade(ds, GroupsMade(ds, settings, gs), flags, NoTail)
  }

  lemma {:induction false} ReportIsParse(ds: seq<Descriptor>, argv: seq<string>, at: nat, settings: seq<Setting>,
                                         gs: seq<Group>, flags: seq<nat>, rest: string, r: Result)
    requires Proper(ds) && |settings| == |ds| && Reports(ds, argv, at, settings, gs, flags, rest, r)
    ensures Parsed(ds, argv, at, settings, gs, r)
  {
    RejectedIsFlag(ds, argv, r.at, flags, rest);
    assert Ends(ds, argv, r.at, GroupsMade(ds, settings, gs), r);
  }

  /** An argument is reported exactly when the arguments before it are groups of options, flags that are
      taken begin it, and what is left of it is no option; the settings before it stand. */
  lemma {:induction false} ReportedIff(ds: seq<Descriptor>, argv: seq<string>, at: nat, settings: seq<Setting>,
                                       r: Result)
    requires Proper(ds) && |settings| == |ds| && at <= |argv|
    ensures r == TakeArgs(ds, argv, at, settings) && r.bad.Some? <==>
            exists gs: seq<Group>, flags: seq<nat>, rest: string :: Reports(ds, argv, at, settings, gs, flags, rest, r)
  {
    ParsedIff(ds, argv, at, settings, r);
    forall gs: seq<Group>, flags: seq<nat>, rest: string | Reports(ds, argv, at, settings, gs, flags, rest, r)
      ensures Parsed(ds, argv, at, settings, gs, r)
    {
      ReportIsParse(ds, argv, at, settings, gs, flags, rest, r);
    }
    if gs: seq<Group> :| r.bad.Some? && Parsed(ds, argv, at, settings, gs, r) {
      ParseIsReport(ds, argv, at, settings, gs, r);
    }
  }

  lemma {:induction false} ParseIsReport(ds: seq<Descriptor>, argv: seq<string>, at: nat, settings: seq<Setting>,
                                         gs: seq<Group>, r: Result)
    requires Proper(ds) && |settings| == |ds| && Parsed(ds, argv, at, settings, gs, r) && r.bad.Some?
    ensures exists flags: seq<nat>, rest: string :: Reports(ds, argv, at, settings, gs, flags, rest, r)
  {
    var end, made := at + |SpellGroups(ds, gs)|, GroupsMade(ds, settings, gs);
    var flags: seq<nat>, rest: string :| Rejected(ds, argv, end, flags, rest)
      && r == Result(end, WordMade(ds, made, flags, NoTail), Some(argv[end]));
    assert Reports(ds, argv, at, settings, gs, flags, rest, r);
  }

  lemma {:induction false} RejectedIsFlag(ds: seq<Descriptor>, argv: seq<string>, at: nat, flags: seq<nat>,
                                          rest: string)
    requires Proper(ds) && Rejected(ds, argv, at, flags, rest)
    ensures !Stops(argv, at) && argv[at] != "--"
  {
    if flags != [] {
      assert ds[flags[0]].name != "";
    }
    assert FlagText(ds, flags, rest) != "";
  }

  // ----- slap's own options

  /** The options of slap; numbers are taken as texts. */
  function SlapOptions(): seq<Descriptor> {
    [Descriptor("b", Text), Descriptor("c", Text), Descriptor("f", Text), Descriptor("l", Flag),
     Descriptor("m", Text), Descriptor("o", Text), Descriptor("portrait", Flag), Descriptor("p", Text),
     Descriptor("s", Flag), Descriptor("version", Flag), Descriptor("x", Text)]
  }

  lemma {:induction false} SlapInitials(k: nat)
    requires k < 11
    ensures |SlapOptions()| == 11 && SlapOptions()[k].name != "" && SlapOptions()[k].name[0] == "bcflmoppsvx"[k]
  {
  }

  /** A format string: names with a star when they take a text, and commas between them. */
  lemma {:induction false} FormatExample()
    ensures Format([Descriptor("check", Flag), Descriptor("f", Text), Descriptor("s", Flag)]) == "check,f*,s"
  {
    var c, f, s := Descriptor("check", Flag), Descriptor("f", Text), Descriptor("s", Flag);
    assert [c, f, s][1..] == [f, s] && [f, s][1..] == [s];
    assert Format([s]) == "s" && Format([f, s]) == "f*,s";
  }

  /** `p` is the only name that another goes on from. */
  lemma {:induction false} OnlyPBegins(k: nat, m: nat)
    requires k < 11 && m < 11 && k != m
    ensures SlapOptions()[k].name <= SlapOptions()[m].name <==> k == 7 && m == 6
  {
    SlapInitials(k);
    SlapInitials(m);
  }

  /** The table is in the manual's order, and no prefix code. */
  lemma {:induction false} SlapOptionsAreOrdered()
    ensures Ordered(SlapOptions()) && !PrefixCode(SlapOptions())
  {
    SlapInitials(0);
    forall i: nat, j: nat | i < j < |SlapOptions()| ensures !(SlapOptions()[i].name <= SlapOptions()[j].name) {
      OnlyPBegins(i, j);
    }
    OnlyPBegins(7, 6);
  }

  lemma {:induction false} SlapNameIsProper(k: nat)
    requires k < |SlapOptions()|
    ensures forall i | 0 <= i < |SlapOptions()[k].name| :: !Special(SlapOptions()[k].name[i])
    ensures SlapOptions()[k].name != ""
  {
  }

  lemma {:induction false} SlapOptionsAreProper()
    ensures Proper(SlapOptions())
  {
    forall k: nat | k < |SlapOptions()|
      ensures forall i | 0 <= i < |SlapOptions()[k].name| :: !Special(SlapOptions()[k].name[i])
      ensures SlapOptions()[k].name != ""
    {
      SlapNameIsProper(k);
    }
  }

  lemma {:induction false} PortraitInText(rest: string)
    ensures "portrait" <= "p" + rest <==> "ortrait" <= rest
  {
    assert "portrait" == "p" + "ortrait";
    assert ("p" + rest)[1..] == rest && "portrait"[1..] == "ortrait";
    if "ortrait" <= rest {
      assert rest == "ortrait" + rest[7..];
      assert "p" + rest == "portrait" + rest[7..];
    }
  }

  lemma {:induction false} SlapNameIsClearIff(k: nat, rest: string)
    requires k < |SlapOptions()|
    ensures ClearAt(SlapOptions(), k, rest) <==> !(k == 7 && "ortrait" <= rest)
  {
    SlapInitials(k);
    PortraitInText(rest);
    forall m: nat | m < 11 && SlapOptions()[k].name < SlapOptions()[m].name ensures k == 7 && m == 6 {
      OnlyPBegins(k, m);
    }
    OnlyPBegins(7, 6);
    assert SlapOptions()[7].name == "p" && SlapOptions()[6].name == "portrait";
  }

  /** With slap's options, whatever is run together, a word is clear unless it has a value right
      after `p` that makes it read `portrait`. */
  lemma {:induction false} SlapWordsAreClearIff(flags: seq<nat>, tail: Tail)
    requires FlagsOf(SlapOptions(), flags) && TailOf(SlapOptions(), tail)
    ensures Clear(SlapOptions(), flags, tail) <==> !(tail.Attached? && tail.k == 7 && "ortrait" <= tail.value)
    decreases |flags|
  {
    if flags != [] {
      SlapNameIsClearIff(flags[0], Word(SlapOptions(), flags[1..], tail));
      SlapWordsAreClearIff(flags[1..], tail);
    } else if tail.Attached? {
      SlapNameIsClearIff(tail.k, tail.value);
    }
  }

  /** slap reports an option that it does not have. */
  lemma {:induction false} UnknownOption(settings: seq<Setting>)
    requires |settings| == |SlapOptions()|
    ensures TakeArgs(SlapOptions(), ["slap", "-z"], 1, settings) == Result(1, settings, Some("-z"))
  {
    var ds, argv := SlapOptions(), ["slap", "-z"];
    forall m: nat | m < |ds| ensures !(ds[m].name <= "z") {
      SlapInitials(m);
    }
    SlapOptionsAreProper();
    assert "-z"[1..] == "z";
    assert TakeWord(ds, argv, 1, "z", settings) == Result(1, settings, Some("-z"));
    ArgumentIsRead(ds, argv, 1, settings);
  }
}
