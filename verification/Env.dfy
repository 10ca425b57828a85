/** Typed environment declarations and their all-or-nothing load (env/env.go). */
module Env {
  import opened Options
  import opened GoStrings
  import opened Numerals

  // ---------------------------------------------------------------- kinds, values and targets

  datatype Width = W8 | W16 | W32 | W64

  /**
   * What a target's type can be: string, []string, bool, the signed integers, Duration, URL, an interface,
   * anything else. An interface holds any value but is never read from text.
   */
  datatype Kind = Text | List | Flag | Integer(width: Width) | Duration | Address | Interface | Other

  datatype Url = Url(scheme: string, rest: string)

  datatype Value =
    | TextOf(text: string)
    | ListOf(items: seq<string>)
    | FlagOf(flag: bool)
    | IntegerOf(number: int)
    | DurationOf(nanoseconds: int)
    | AddressOf(url: Url)
    | OtherOf(token: nat)

  /** time.ParseDuration and url.Parse. */
  datatype Parsers = Parsers(duration: string -> Option<int>, url: string -> Option<Url>)

  function Bound(width: Width): int {
    match width
    case W8 => 0x80
    case W16 => 0x8000
    case W32 => 0x8000_0000
    case W64 => 0x8000_0000_0000_0000
  }

  predicate InRange(n: int, width: Width) {
    -Bound(width) <= n < Bound(width)
  }

  predicate Fits(v: Value, kind: Kind) {
    match kind
    case Text => v.TextOf?
    case List => v.ListOf?
    case Flag => v.FlagOf?
    case Integer(width) => v.IntegerOf? && InRange(v.number, width)
    case Duration => v.DurationOf?
    case Address => v.AddressOf?
    case Interface => true
    case Other => v.OtherOf?
  }

  /** The variable a declaration points at; two declarations may point at one. */
  class Target {
    const kind: Kind
    var value: Value

    constructor (kind: Kind, value: Value)
      ensures this.kind == kind && this.value == value
    {
      this.kind, this.value := kind, value;
    }

    /** reflect's Set, which refuses a value of another type. */
    method Set(v: Value)
      requires Fits(v, kind)
      modifies this
      ensures value == v
    {
      value := v;
    }
  }

  // ---------------------------------------------------------------- reading one value

  /** The comma-separated items of a list, trimmed, without the blank ones. */
  function Kept(parts: seq<string>): seq<string> {
    if parts == [] then []
    else
      var item := TrimSpace(parts[|parts| - 1]);
      if item == "" then Kept(parts[..|parts| - 1]) else Kept(parts[..|parts| - 1]) + [item]
  }

  function Items(raw: string): seq<string> {
    Kept(Split(raw, ','))
  }

  method ReadItems(raw: string) returns (items: seq<string>)
    ensures items == Items(raw)
  {
    var parts := Split(raw, ',');
    items := [];
    for i := 0 to |parts|
      invariant items == Kept(parts[..i])
    {
      assert parts[..i + 1][..i] == parts[..i];
      var trimmed := TrimSpace(parts[i]);
      if trimmed == "" {
        continue;
      }
      items := items + [trimmed];
    }
    assert parts[..|parts|] == parts;
  }

  /** strconv.ParseBool. */
  function ParseBool(raw: string): Option<bool> {
    if raw in ["1", "t", "T", "TRUE", "true", "True"] then Some(true)
    else if raw in ["0", "f", "F", "FALSE", "false", "False"] then Some(false)
    else None
  }

  /** strconv.ParseInt in base 10 for one bit width. */
  function ParseWidth(raw: string, width: Width): Option<int> {
    match ParseInt(raw, 10)
    case None => None
    case Some(n) => if InRange(n, width) then Some(n) else None
  }

  function Read(kind: Kind, raw: string, parsers: Parsers): (value: Option<Value>)
    ensures value.Some? ==> Fits(value.value, kind)
  {
    match kind
    case Text => Some(TextOf(raw))
    case List => Some(ListOf(Items(raw)))
    case Flag => (match ParseBool(raw) case Some(b) => Some(FlagOf(b)) case None => None)
    case Integer(width) => (match ParseWidth(raw, width) case Some(n) => Some(IntegerOf(n)) case None => None)
    case Duration => (match parsers.duration(raw) case Some(d) => Some(DurationOf(d)) case None => None)
    case Address =>
      (match parsers.url(raw)
       case Some(u) => if u.scheme == "" then None else Some(AddressOf(u))
       case None => None)
    case Interface | Other => None
  }

  /** No text at all is read as this kind, however durations and URLs are parsed. */
  ghost predicate NeverRead(kind: Kind) {
    forall text, parsers :: Read(kind, text, parsers).None?
  }

  /** The kinds that no text is read as. */
  predicate Unsupporting(kind: Kind) {
    kind == Interface || kind == Other
  }

  lemma NeverReadExactly(kind: Kind)
    ensures NeverRead(kind) <==> Unsupporting(kind)
  {
    var any := Parsers(_ => Some(0), _ => Some(Url("http", "")));
    FormatIntRoundTrip(0, 10);
    assert !Unsupporting(kind) && !kind.Flag? ==> Read(kind, FormatInt(0, 10), any).Some?;
    assert kind.Flag? ==> Read(kind, "1", any).Some?;
  }

  /** A string is taken as it is, and only an absolute URL is an address. */
  lemma ReadMeans(raw: string, parsers: Parsers, kind: Kind)
    ensures Read(Text, raw, parsers) == Some(TextOf(raw))
    ensures Read(Flag, raw, parsers) == Some(FlagOf(true)) <==> raw in ["1", "t", "T", "TRUE", "true", "True"]
    ensures Read(Flag, raw, parsers) == Some(FlagOf(false)) <==> raw in ["0", "f", "F", "FALSE", "false", "False"]
    ensures forall url :: Read(Address, raw, parsers) == Some(AddressOf(url)) <==>
              parsers.url(raw) == Some(url) && url.scheme != ""
    ensures forall d :: Read(Duration, raw, parsers) == Some(DurationOf(d)) <==> parsers.duration(raw) == Some(d)
  {
  }

  predicate ItemLike(item: string) {
    item != "" && ',' !in item && !IsSpace(item[0]) && !IsSpace(item[|item| - 1])
  }

  lemma {:induction false} KeptKeeps(items: seq<string>)
    requires forall x :: x in items ==> ItemLike(x)
    ensures Kept(items) == items
  {
    if items != [] {
      var before, last := items[..|items| - 1], items[|items| - 1];
      assert last in items;
      TrimSpaceFixes(last);
      KeptKeeps(before);
      assert items == before + [last];
    }
  }

  lemma {:induction false} TrimLeftKeepsOnly(s: string, c: char)
    requires c !in s
    ensures c !in TrimLeft(s)
  {
    if s != "" {
      TrimLeftKeepsOnly(s[1..], c);
    }
  }

  lemma TrimSpaceKeepsOnly(s: string, c: char)
    requires c !in s
    ensures c !in TrimSpace(s)
  {
    TrimLeftKeepsOnly(s, c);
  }

  lemma {:induction false} KeptItems(parts: seq<string>)
    requires forall p :: p in parts ==> ',' !in p
    ensures forall x :: x in Kept(parts) ==> ItemLike(x)
  {
    if parts != [] {
      var last := parts[|parts| - 1];
      assert last in parts;
      KeptItems(parts[..|parts| - 1]);
      TrimSpaceKeepsOnly(last, ',');
    }
  }

  /** A list survives printing and reading exactly when its items could have been read at all. */
  lemma ListRoundTripExactly(items: seq<string>)
    ensures Items(Join(items, ",")) == items <==> forall x :: x in items ==> ItemLike(x)
  {
    if forall x :: x in items ==> ItemLike(x) {
      if items == [] {
        assert Split("", ',') == [""];
        assert [""][..0] == [];
      } else {
        SplitJoin(items, ',');
        KeptKeeps(items);
      }
    }
    if Items(Join(items, ",")) == items {
      SplitPieces(Join(items, ","), ',');
      KeptItems(Split(Join(items, ","), ','));
    }
  }

  /** A printed integer is read back exactly when the target is wide enough for it. */
  lemma IntegerRoundTripExactly(n: int, width: Width, parsers: Parsers)
    requires MIN_INT64 <= n <= MAX_INT64
    ensures Read(Integer(width), FormatInt(n, 10), parsers) ==
            if InRange(n, width) then Some(IntegerOf(n)) else None
  {
    FormatIntRoundTrip(n, 10);
  }

  // ---------------------------------------------------------------- declarations

  datatype Declaration = Declaration(name: string, target: Target?, required: bool, default: Option<Value>)

  datatype Error =
    | EmptyName
    | Duplicate(name: string)
    | Missing(name: string)
    | NoTarget(name: string)
    | BadDefault(name: string)
    | Unreadable(name: string)
    | Unsupported(name: string)

  datatype Assignment = Assignment(target: Target, value: Value)

  datatype Verdict = Assign(assignment: Assignment) | Reject(error: Error)

  type Values = map<string, string>

  function DefaultVerdict(d: Declaration): Verdict {
    if d.target == null then Reject(NoTarget(d.name))
    else if d.default.Some? && Fits(d.default.value, d.target.kind) then Assign(Assignment(d.target, d.default.value))
    else Reject(BadDefault(d.name))
  }

  function ParsedVerdict(d: Declaration, raw: string, parsers: Parsers): Verdict {
    if d.target == null then Reject(NoTarget(d.name))
    else
      match Read(d.target.kind, raw, parsers)
      case Some(v) => Assign(Assignment(d.target, v))
      case None => Reject(if Unsupporting(d.target.kind) then Unsupported(d.name) else Unreadable(d.name))
  }

  predicate DeclaredBefore(declarations: seq<Declaration>, i: nat)
    requires i < |declarations|
  {
    exists j :: 0 <= j < i && declarations[j].name == declarations[i].name
  }

  /** What becomes of the i-th declaration. */
  function Judge(declarations: seq<Declaration>, i: nat, values: Values, parsers: Parsers): Verdict
    requires i < |declarations|
  {
    var d := declarations[i];
    if d.name == "" then Reject(EmptyName)
    else if DeclaredBefore(declarations, i) then Reject(Duplicate(d.name))
    else if d.name in values then ParsedVerdict(d, values[d.name], parsers)
    else if d.required then Reject(Missing(d.name))
    else DefaultVerdict(d)
  }

  /** The assignments of the first n declarations, in order. */
  function Assignments(declarations: seq<Declaration>, n: nat, values: Values, parsers: Parsers): seq<Assignment>
    requires n <= |declarations|
  {
    if n == 0 then []
    else
      var before := Assignments(declarations, n - 1, values, parsers);
      match Judge(declarations, n - 1, values, parsers)
      case Assign(assignment) => before + [assignment]
      case Reject(_) => before
  }

  function Errors(declarations: seq<Declaration>, n: nat, values: Values, parsers: Parsers): seq<Error>
    requires n <= |declarations|
  {
    if n == 0 then []
    else
      var before := Errors(declarations, n - 1, values, parsers);
      match Judge(declarations, n - 1, values, parsers)
      case Assign(_) => before
      case Reject(error) => before + [error]
  }

  /** Every declaration yields exactly one assignment or one error. */
  lemma {:induction false} OneVerdictEach(declarations: seq<Declaration>, n: nat, values: Values, parsers: Parsers)
    requires n <= |declarations|
    ensures |Assignments(declarations, n, values, parsers)| + |Errors(declarations, n, values, parsers)| == n
  {
    hide Judge;
    if n > 0 {
      OneVerdictEach(declarations, n - 1, values, parsers);
    }
  }

  lemma {:induction false} NoErrors(declarations: seq<Declaration>, n: nat, values: Values, parsers: Parsers)
    requires n <= |declarations|
    ensures Errors(declarations, n, values, parsers) == [] <==>
            forall i :: 0 <= i < n ==> Judge(declarations, i, values, parsers).Assign?
    ensures Errors(declarations, n, values, parsers) == [] ==>
              |Assignments(declarations, n, values, parsers)| == n &&
              forall i :: 0 <= i < n ==>
                Judge(declarations, i, values, parsers) == Assign(Assignments(declarations, n, values, parsers)[i])
  {
    hide Judge;
    if n > 0 {
      NoErrors(declarations, n - 1, values, parsers);
    }
  }

  lemma {:induction false} AssignmentsFit(declarations: seq<Declaration>, n: nat, values: Values, parsers: Parsers)
    requires n <= |declarations|
    ensures forall a :: a in Assignments(declarations, n, values, parsers) ==>
              Fits(a.value, a.target.kind) && exists i :: 0 <= i < n && declarations[i].target == a.target
  {
    hide Fits, Read;
    if n > 0 {
      AssignmentsFit(declarations, n - 1, values, parsers);
    }
  }

  // ---------------------------------------------------------------- which schemas load

  /** A declaration by itself can be given a value. */
  predicate Usable(d: Declaration, values: Values, parsers: Parsers) {
    && d.name != ""
    && d.target != null
    && if d.name in values then Read(d.target.kind, values[d.name], parsers).Some?
       else !d.required && d.default.Some? && Fits(d.default.value, d.target.kind)
  }

  predicate NamesDiffer(declarations: seq<Declaration>) {
    forall i, j :: 0 <= i < j < |declarations| ==> declarations[i].name != declarations[j].name
  }

  predicate Loadable(declarations: seq<Declaration>, values: Values, parsers: Parsers) {
    && NamesDiffer(declarations)
    && forall d :: d in declarations ==> Usable(d, values, parsers)
  }

  /** There is no error exactly when names differ and each declaration is usable: order plays no part. */
  lemma LoadableExactly(declarations: seq<Declaration>, values: Values, parsers: Parsers)
    ensures Errors(declarations, |declarations|, values, parsers) == [] <==> Loadable(declarations, values, parsers)
  {
    hide Read, Fits, Errors, Assignments;
    NoErrors(declarations, |declarations|, values, parsers);
    if Errors(declarations, |declarations|, values, parsers) == [] {
      forall i, j | 0 <= i < j < |declarations| ensures declarations[i].name != declarations[j].name {
        assert Judge(declarations, j, values, parsers).Assign?;
      }
      forall d | d in declarations ensures Usable(d, values, parsers) {
        var i :| 0 <= i < |declarations| && declarations[i] == d;
        assert Judge(declarations, i, values, parsers).Assign?;
      }
    }
    if Loadable(declarations, values, parsers) {
      forall i | 0 <= i < |declarations| ensures Judge(declarations, i, values, parsers).Assign? {
        assert Usable(declarations[i], values, parsers);
      }
    }
  }

  /** What a usable declaration gives its target. */
  function Given(d: Declaration, values: Values, parsers: Parsers): Value
    requires Usable(d, values, parsers)
  {
    if d.name in values then Read(d.target.kind, values[d.name], parsers).value else d.default.value
  }

  /** Declaration i is the last to point at its target. */
  predicate LastFor(declarations: seq<Declaration>, i: nat)
    requires i < |declarations|
  {
    forall j :: i < j < |declarations| ==> declarations[j].target != declarations[i].target
  }

  lemma TargetOf(declarations: seq<Declaration>, i: nat, values: Values, parsers: Parsers)
    requires i < |declarations|
    ensures var verdict := Judge(declarations, i, values, parsers);
            verdict.Assign? ==> verdict.assignment.target == declarations[i].target
  {
    hide Read, Fits;
  }

  lemma LastForMeans(declarations: seq<Declaration>, i: nat, j: nat)
    requires i < j < |declarations| && LastFor(declarations, i)
    ensures declarations[j].target != declarations[i].target
  {
  }

  /**
   * Without errors, the i-th assignment is the i-th declaration's, and no later one has its target if it is
   * the last.
   */
  lemma PlannedFor(declarations: seq<Declaration>, values: Values, parsers: Parsers, i: nat)
    requires i < |declarations| && Loadable(declarations, values, parsers)
    ensures var plan := Assignments(declarations, |declarations|, values, parsers);
            && |plan| == |declarations|
            && Usable(declarations[i], values, parsers)
            && plan[i] == Assignment(declarations[i].target, Given(declarations[i], values, parsers))
            && (LastFor(declarations, i) ==> forall j :: i < j < |plan| ==> plan[j].target != plan[i].target)
  {
    hide Read, Fits, Errors, Assignments, LastFor;
    LoadableExactly(declarations, values, parsers);
    NoErrors(declarations, |declarations|, values, parsers);
    var plan := Assignments(declarations, |declarations|, values, parsers);
    assert declarations[i] in declarations;
    assert Judge(declarations, i, values, parsers) == Assign(plan[i]);
    if LastFor(declarations, i) {
      forall j | i < j < |plan| ensures plan[j].target != plan[i].target {
        TargetOf(declarations, j, values, parsers);
        assert declarations[j].target != declarations[i].target by { LastForMeans(declarations, i, j); }
      }
    }
  }

  // ---------------------------------------------------------------- loading

  /** What reading a .env file gives: none there, one that cannot be read or parsed, or its contents. */
  datatype DotEnv = NoFile | BrokenFile | Contents(values: Values)

  datatype LoadOption = WithEnvironment(values: Values) | WithWorkingDirectory(directory: string) | WithoutDotEnv

  datatype LoadConfig = LoadConfig(environment: Values, workingDirectory: string, loadDotEnv: bool)

  function Applied(config: LoadConfig, option: LoadOption): LoadConfig {
    match option
    case WithEnvironment(values) => config.(environment := values)
    case WithWorkingDirectory(directory) => config.(workingDirectory := directory)
    case WithoutDotEnv => config.(loadDotEnv := false)
  }

  /** Each option overrides what came before it. */
  function Configured(config: LoadConfig, options: seq<LoadOption>): LoadConfig
    decreases |options|
  {
    if options == [] then config else Configured(Applied(config, options[0]), options[1..])
  }

  /** The file of the working directory, unless switched off. */
  function FileFor(config: LoadConfig, files: string -> DotEnv): DotEnv {
    if config.loadDotEnv then files(config.workingDirectory) else NoFile
  }

  /** The values declarations are judged by. */
  function ValuesFor(config: LoadConfig, files: string -> DotEnv): Values {
    (if FileFor(config, files).Contents? then FileFor(config, files).values else map[]) + config.environment
  }

  /** The last environment given is the one read, and the process's if none is given. */
  lemma {:induction false} EnvironmentMeans(config: LoadConfig, options: seq<LoadOption>)
    ensures var environment := Configured(config, options).environment;
            || (exists i :: 0 <= i < |options| && options[i] == WithEnvironment(environment) &&
                            forall j :: i < j < |options| ==> !options[j].WithEnvironment?)
            || (environment == config.environment && forall option :: option in options ==> !option.WithEnvironment?)
    decreases |options|
  {
    if options != [] {
      var next, rest := Applied(config, options[0]), options[1..];
      EnvironmentMeans(next, rest);
      var environment := Configured(next, rest).environment;
      assert forall j :: 0 < j < |options| ==> options[j] == rest[j - 1];
      if i :| 0 <= i < |rest| && rest[i] == WithEnvironment(environment) &&
              forall j :: i < j < |rest| ==> !rest[j].WithEnvironment? {
        assert options[i + 1] == WithEnvironment(environment);
      } else if options[0].WithEnvironment? {
        assert options[0] == WithEnvironment(environment);
      }
    }
  }

  /** The last directory given is the one of the file, and the current one if none is given. */
  lemma {:induction false} DirectoryMeans(config: LoadConfig, options: seq<LoadOption>)
    ensures var directory := Configured(config, options).workingDirectory;
            || (exists i :: 0 <= i < |options| && options[i] == WithWorkingDirectory(directory) &&
                            forall j :: i < j < |options| ==> !options[j].WithWorkingDirectory?)
            || (directory == config.workingDirectory &&
                forall option :: option in options ==> !option.WithWorkingDirectory?)
    decreases |options|
  {
    if options != [] {
      var next, rest := Applied(config, options[0]), options[1..];
      DirectoryMeans(next, rest);
      var directory := Configured(next, rest).workingDirectory;
      assert forall j :: 0 < j < |options| ==> options[j] == rest[j - 1];
      if i :| 0 <= i < |rest| && rest[i] == WithWorkingDirectory(directory) &&
              forall j :: i < j < |rest| ==> !rest[j].WithWorkingDirectory? {
        assert options[i + 1] == WithWorkingDirectory(directory);
      } else if options[0].WithWorkingDirectory? {
        assert options[0] == WithWorkingDirectory(directory);
      }
    }
  }

  /** One WithoutDotEnv anywhere is enough. */
  lemma {:induction false} DotEnvMeans(config: LoadConfig, options: seq<LoadOption>)
    ensures Configured(config, options).loadDotEnv <==> config.loadDotEnv && WithoutDotEnv !in options
    decreases |options|
  {
    if options != [] {
      assert options == [options[0]] + options[1..];
      DotEnvMeans(Applied(config, options[0]), options[1..]);
    }
  }

  /** What is known of a name: the environment's text, failing that the text of a file that is read. */
  function TextFor(config: LoadConfig, files: string -> DotEnv, name: string): Option<string> {
    if name in config.environment then Some(config.environment[name])
    else if !config.loadDotEnv then None
    else
      match files(config.workingDirectory)
      case Contents(values) => if name in values then Some(values[name]) else None
      case NoFile | BrokenFile => None
  }

  /** A declaration has a name, a target, and either a readable text or, being optional, a fitting default. */
  predicate Supplied(d: Declaration, config: LoadConfig, files: string -> DotEnv, parsers: Parsers) {
    && d.name != ""
    && d.target != null
    && match TextFor(config, files, d.name)
       case Some(text) => Read(d.target.kind, text, parsers).Some?
       case None => !d.required && d.default.Some? && Fits(d.default.value, d.target.kind)
  }

  /** The value a declaration is due: its text's reading, or its default where there is no text. */
  function Due(d: Declaration, config: LoadConfig, files: string -> DotEnv, parsers: Parsers): Option<Value> {
    if d.target == null then None
    else
      match TextFor(config, files, d.name)
      case Some(text) => Read(d.target.kind, text, parsers)
      case None => d.default
  }

  lemma SuppliedIsUsable(d: Declaration, config: LoadConfig, files: string -> DotEnv, parsers: Parsers)
    ensures Supplied(d, config, files, parsers) <==> Usable(d, ValuesFor(config, files), parsers)
    ensures Supplied(d, config, files, parsers) ==>
              Due(d, config, files, parsers) == Some(Given(d, ValuesFor(config, files), parsers))
  {
    hide Read, Fits;
  }

  method Overlay(base: Values, over: Values) returns (values: Values)
    ensures values == base + over
  {
    values := base;
    var rest := over.Keys;
    while rest != {}
      invariant rest <= over.Keys
      invariant values.Keys == base.Keys + (over.Keys - rest)
      invariant forall name :: name in over && name !in rest ==> values[name] == over[name]
      invariant forall name :: name in base && (name !in over || name in rest) ==> values[name] == base[name]
      decreases |rest|
    {
      var name :| name in rest;
      values := values[name := over[name]];
      rest := rest - {name};
    }
  }

  /**
   * A text is assigned exactly when there is a target and the text reads as a value of its type; then that
   * value goes to that target. Otherwise the error says which of the three reasons it was.
   */
  method ParsedAssignment(d: Declaration, raw: string, parsers: Parsers) returns (verdict: Verdict)
    ensures verdict.Assign? <==> d.target != null && Read(d.target.kind, raw, parsers).Some?
    ensures verdict.Assign? ==>
              && verdict.assignment.target == d.target && Fits(verdict.assignment.value, d.target.kind)
              && Read(d.target.kind, raw, parsers) == Some(verdict.assignment.value)
    ensures verdict == Reject(NoTarget(d.name)) <==> d.target == null
    ensures verdict == Reject(Unsupported(d.name)) <==> d.target != null && NeverRead(d.target.kind)
    ensures verdict == Reject(Unreadable(d.name)) <==>
            d.target != null && Read(d.target.kind, raw, parsers).None? && !NeverRead(d.target.kind)
    ensures verdict == ParsedVerdict(d, raw, parsers)
  {
    if d.target == null {
      return Reject(NoTarget(d.name));
    }
    NeverReadExactly(d.target.kind);
    hide NeverRead;
    if d.target.kind == List {
      var items := ReadItems(raw);
      return Assign(Assignment(d.target, ListOf(items)));
    }
    match Read(d.target.kind, raw, parsers)
    case Some(v) => return Assign(Assignment(d.target, v));
    case None => return Reject(if Unsupporting(d.target.kind) then Unsupported(d.name) else Unreadable(d.name));
  }

  class Schema {
    const declarations: seq<Declaration>

    constructor (declarations: seq<Declaration>)
      ensures this.declarations == declarations
    {
      this.declarations := declarations;
    }

    ghost function Targets(): set<Target> {
      set d | d in declarations && d.target != null :: d.target
    }

    method Validate(values: Values, parsers: Parsers) returns (assignments: seq<Assignment>, errors: seq<Error>)
      ensures assignments == Assignments(declarations, |declarations|, values, parsers)
      ensures errors == Errors(declarations, |declarations|, values, parsers)
    {
      assignments, errors := [], [];
      var seen: set<string> := {};
      for i := 0 to |declarations|
        invariant assignments == Assignments(declarations, i, values, parsers)
        invariant errors == Errors(declarations, i, values, parsers)
        invariant forall name :: name in seen <==> name != "" && exists j :: 0 <= j < i && declarations[j].name == name
      {
        var d := declarations[i];
        if d.name == "" {
          errors := errors + [EmptyName];
          continue;
        }
        if d.name in seen {
          errors := errors + [Duplicate(d.name)];
          continue;
        }
        seen := seen + {d.name};
        if d.name !in values && d.required {
          errors := errors + [Missing(d.name)];
          continue;
        }
        var verdict: Verdict;
        if d.name !in values {
          verdict := DefaultVerdict(d);
        } else {
          verdict := ParsedAssignment(d, values[d.name], parsers);
        }
        match verdict
        case Assign(assignment) => assignments := assignments + [assignment];
        case Reject(error) => errors := errors + [error];
      }
    }

    /** Each target holds the value of the last declaration that points at it. */
    ghost predicate Holds(values: Values, parsers: Parsers)
      requires Loadable(declarations, values, parsers)
      reads Targets()
    {
      forall i {:trigger declarations[i]} :: 0 <= i < |declarations| ==>
        assert declarations[i] in declarations;
        LastFor(declarations, i) ==> declarations[i].target.value == Given(declarations[i], values, parsers)
    }

    /** Names differ, and each declaration is supplied. */
    ghost predicate AllSupplied(config: LoadConfig, files: string -> DotEnv, parsers: Parsers) {
      && (forall i, j :: 0 <= i < j < |declarations| ==> declarations[i].name != declarations[j].name)
      && forall d :: d in declarations ==> Supplied(d, config, files, parsers)
    }

    /** Each target holds what is due to the last declaration that points at it. */
    ghost predicate HoldsDue(config: LoadConfig, files: string -> DotEnv, parsers: Parsers)
      reads Targets()
    {
      forall i {:trigger declarations[i]} :: 0 <= i < |declarations| ==>
        assert declarations[i] in declarations;
        (declarations[i].target != null &&
         (forall j :: i < j < |declarations| ==> declarations[j].target != declarations[i].target) ==>
           Due(declarations[i], config, files, parsers) == Some(declarations[i].target.value))
    }

    lemma AllSuppliedIsLoadable(config: LoadConfig, files: string -> DotEnv, parsers: Parsers)
      ensures AllSupplied(config, files, parsers) <==> Loadable(declarations, ValuesFor(config, files), parsers)
      ensures Loadable(declarations, ValuesFor(config, files), parsers) ==>
                (Holds(ValuesFor(config, files), parsers) ==> HoldsDue(config, files, parsers))
    {
      hide Read, Fits, Due, Given, ValuesFor, TextFor;
      forall d: Declaration
        ensures Supplied(d, config, files, parsers) <==> Usable(d, ValuesFor(config, files), parsers)
        ensures Supplied(d, config, files, parsers) ==>
                  Due(d, config, files, parsers) == Some(Given(d, ValuesFor(config, files), parsers))
      {
        SuppliedIsUsable(d, config, files, parsers);
      }
    }

    /**
     * All or nothing, and the process environment wins over the file, name by name. The options are applied
     * in order; without a current directory nothing loads, whatever they say.
     */
    method Load(process: Values, currentDirectory: Option<string>, options: seq<LoadOption>, files: string -> DotEnv,
                parsers: Parsers)
      returns (loaded: bool)
      modifies Targets()
      ensures currentDirectory.None? ==> !loaded
      ensures currentDirectory.Some? ==>
                var config := Configured(LoadConfig(process, currentDirectory.value, true), options);
                && (loaded <==>
                    !(config.loadDotEnv && files(config.workingDirectory).BrokenFile?) &&
                    AllSupplied(config, files, parsers))
                && (loaded ==> HoldsDue(config, files, parsers))
      ensures !loaded ==> forall t :: t in Targets() ==> t.value == old(t.value)
    {
      hide Loadable, AllSupplied, HoldsDue, Holds;
      if currentDirectory.None? {
        return false;
      }
      var config := LoadConfig(process, currentDirectory.value, true);
      for i := 0 to |options|
        invariant Configured(config, options[i..]) ==
                  Configured(LoadConfig(process, currentDirectory.value, true), options)
      {
        assert options[i..][1..] == options[i + 1..];
        match options[i] {
          case WithEnvironment(environment) => config := config.(environment := environment);
          case WithWorkingDirectory(directory) => config := config.(workingDirectory := directory);
          case WithoutDotEnv => config := config.(loadDotEnv := false);
        }
      }
      var values: Values := map[];
      if config.loadDotEnv {
        match files(config.workingDirectory) {
          case NoFile =>
          case BrokenFile => return false;
          case Contents(fileValues) => values := Overlay(values, fileValues);
        }
      }
      assert values + config.environment == ValuesFor(config, files);
      values := Overlay(values, config.environment);
      loaded := LoadValues(values, parsers);
      AllSuppliedIsLoadable(config, files, parsers);
    }

    method LoadValues(values: Values, parsers: Parsers) returns (loaded: bool)
      modifies Targets()
      ensures loaded <==> Loadable(declarations, values, parsers)
      ensures loaded ==> Holds(values, parsers)
      ensures !loaded ==> forall t :: t in Targets() ==> t.value == old(t.value)
    {
      hide Loadable;
      var assignments, errors := Validate(values, parsers);
      LoadableExactly(declarations, values, parsers);
      if errors != [] {
        return false;
      }
      AssignPlan(assignments, values, parsers);
      return true;
    }

    method AssignPlan(assignments: seq<Assignment>, values: Values, parsers: Parsers)
      requires Loadable(declarations, values, parsers)
      requires assignments == Assignments(declarations, |declarations|, values, parsers)
      modifies Targets()
      ensures Holds(values, parsers)
    {
      hide Loadable, Usable, Assignments, LastFor, Given;
      AssignmentsFit(declarations, |declarations|, values, parsers);
      AssignAll(assignments);
      forall i | 0 <= i < |declarations| && LastFor(declarations, i)
        ensures Usable(declarations[i], values, parsers)
        ensures declarations[i].target != null
        ensures declarations[i].target.value == Given(declarations[i], values, parsers)
      {
        PlannedFor(declarations, values, parsers, i);
        assert assignments[i].target.value == assignments[i].value;
      }
    }

    method AssignAll(assignments: seq<Assignment>)
      requires forall a :: a in assignments ==> Fits(a.value, a.target.kind) && a.target in Targets()
      modifies Targets()
      ensures forall i :: 0 <= i < |assignments| &&
                          (forall j :: i < j < |assignments| ==> assignments[j].target != assignments[i].target) ==>
                assignments[i].target.value == assignments[i].value
    {
      for k := 0 to |assignments|
        invariant forall i :: 0 <= i < k &&
                              (forall j :: i < j < k ==> assignments[j].target != assignments[i].target) ==>
                    assignments[i].target.value == assignments[i].value
      {
        assignments[k].target.Set(assignments[k].value);
      }
    }
  }
}
