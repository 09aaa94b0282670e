/** Method policy lookup: the full method name parser, the registry scan and its memo table. */
module MethodPolicy {
  import opened Results
  import opened ResourceTemplate

  // ---------------------------------------------------- full method names

  datatype RpcMethod = RpcMethod(service: string, methodName: string)

  /** strings.LastIndex(s, "/"), with |s| for "not found". */
  function LastSlash(s: string): (i: nat)
    ensures i <= |s| && (i < |s| ==> s[i] == '/')
    ensures forall j | i < j < |s| :: s[j] != '/'
    ensures i == |s| ==> '/' !in s
  {
    if s == "" then 0
    else if s[|s| - 1] == '/' then |s| - 1
    else
      var i := LastSlash(s[..|s| - 1]);
      if i == |s| - 1 then |s| else i
  }

  function ParseFullMethod(s: string): Result<RpcMethod, string> {
    if |s| == 0 || s[0] != '/' then Err("bad method")
    else
      var m := s[1..];
      var i := LastSlash(m);
      if i == |m| then Err("bad method") else Ok(RpcMethod(m[..i], m[i + 1..]))
  }

  function PrintFullMethod(m: RpcMethod): string { "/" + m.service + "/" + m.methodName }

  /** A parsed name prints back, and its method part has no slash. */
  lemma ParseThenPrint(s: string)
    requires ParseFullMethod(s).Ok?
    ensures PrintFullMethod(ParseFullMethod(s).value) == s
    ensures '/' !in ParseFullMethod(s).value.methodName
  {
    var m := s[1..];
    var i := LastSlash(m);
    assert m == m[..i] + "/" + m[i + 1..];
  }

  /** Any service name with a slash-free method name is parsed back from its printed form. */
  lemma PrintThenParse(m: RpcMethod)
    requires '/' !in m.methodName
    ensures ParseFullMethod(PrintFullMethod(m)) == Ok(m)
  {
    var t := m.service + "/" + m.methodName;
    assert PrintFullMethod(m)[1..] == t;
    assert t[|m.service|] == '/';
    forall j | |m.service| < j < |t|
      ensures t[j] != '/'
    {
      assert t[j] == m.methodName[j - |m.service| - 1];
    }
    assert LastSlash(t) == |m.service|;
    assert t[..|m.service|] == m.service && t[|m.service| + 1..] == m.methodName;
  }

  /** The parser accepts exactly the printed names. */
  lemma ParsesExactlyPrinted(s: string)
    ensures ParseFullMethod(s).Ok? <==> exists m: RpcMethod :: '/' !in m.methodName && s == PrintFullMethod(m)
  {
    if ParseFullMethod(s).Ok? {
      ParseThenPrint(s);
    }
    if m: RpcMethod :| '/' !in m.methodName && s == PrintFullMethod(m) {
      PrintThenParse(m);
    }
  }

  // ------------------------------------------------------ registry lookup

  /** Method options: absent, of an unexpected type, or with the policy extension set or not. */
  datatype MethodOptions = NoOptions | ForeignOptions | Options(policy: Option<ProtoPolicy>)
  datatype Service = Service(name: string, methods: map<string, MethodOptions>)
  datatype File = File(services: seq<Service>)

  type Answer = Result<Option<ProtoPolicy>, string>

  function InFile(services: seq<Service>, name: string): Option<Service> {
    if services == [] then None
    else if services[0].name == name then Some(services[0])
    else InFile(services[1..], name)
  }

  /** The first service of that name in iteration order. */
  function FindFirst(files: seq<File>, name: string): Option<Service> {
    if files == [] then None
    else
      var s := InFile(files[0].services, name);
      if s.Some? then s else FindFirst(files[1..], name)
  }

  function PolicyOf(service: Option<Service>, methodName: string): Answer {
    if service.None? || methodName !in service.value.methods then Ok(None)
    else
      match service.value.methods[methodName]
      case NoOptions => Ok(None)
      case ForeignOptions => Err("bad options")
      case Options(p) => Ok(p)
  }

  function LookupPolicy(files: seq<File>, fullMethod: string): Answer {
    match ParseFullMethod(fullMethod)
    case Err(e) => Err(e)
    case Ok(m) => PolicyOf(FindFirst(files, m.service), m.methodName)
  }

  /** lookupMethodPolicy: the nested scan, which stops at the first service of the name. */
  method LookupMethodPolicy(files: seq<File>, fullMethod: string) returns (r: Answer)
    ensures r == LookupPolicy(files, fullMethod)
  {
    var mm := ParseFullMethod(fullMethod);
    if mm.Err? { return Err(mm.error); }
    var name := mm.value.service;
    var service: Option<Service> := None;
    var f := 0;
    while f < |files| && service.None?
      invariant 0 <= f <= |files|
      invariant service.None? ==> FindFirst(files, name) == FindFirst(files[f..], name)
      invariant service.Some? ==> FindFirst(files, name) == service
    {
      var services := files[f].services;
      var i := 0;
      while i < |services| && service.None?
        invariant 0 <= i <= |services|
        invariant service.None? ==> InFile(services, name) == InFile(services[i..], name)
        invariant service.Some? ==> InFile(services, name) == service
      {
        if services[i].name == name { service := Some(services[i]); }
        i := i + 1;
      }
      f := f + 1;
    }
    r := PolicyOf(service, mm.value.methodName);
  }

  // ------------------------------------------- iteration order of files

  predicate Declares(files: seq<File>, s: Service) {
    exists f | f in files :: s in f.services
  }

  /** Service names are unique in the registry. */
  ghost predicate UniqueNames(files: seq<File>) {
    forall a, b | Declares(files, a) && Declares(files, b) && a.name == b.name :: a == b
  }

  ghost predicate SameFiles(files1: seq<File>, files2: seq<File>) {
    forall f :: f in files1 <==> f in files2
  }

  lemma {:induction false} InFileFinds(services: seq<Service>, name: string)
    ensures InFile(services, name).Some? ==> InFile(services, name).value in services
    ensures InFile(services, name).Some? ==> InFile(services, name).value.name == name
    ensures InFile(services, name).None? ==> forall s | s in services :: s.name != name
  {
    if services == [] {
    } else {
      InFileFinds(services[1..], name);
    }
  }

  lemma {:induction false} FindFirstFinds(files: seq<File>, name: string)
    ensures FindFirst(files, name).Some? ==>
              Declares(files, FindFirst(files, name).value) && FindFirst(files, name).value.name == name
    ensures FindFirst(files, name).None? ==> forall s | Declares(files, s) :: s.name != name
  {
    if files == [] {
    } else {
      InFileFinds(files[0].services, name);
      FindFirstFinds(files[1..], name);
      if InFile(files[0].services, name).None? && FindFirst(files[1..], name).Some? {
        var f :| f in files[1..] && FindFirst(files[1..], name).value in f.services;
        assert f in files;
      }
    }
  }

  /** With unique service names, the answer does not depend on the order of the files. */
  lemma LookupIgnoresFileOrder(files1: seq<File>, files2: seq<File>, fullMethod: string)
    requires UniqueNames(files1) && SameFiles(files1, files2)
    ensures LookupPolicy(files1, fullMethod) == LookupPolicy(files2, fullMethod)
  {
    if ParseFullMethod(fullMethod).Ok? {
      var name := ParseFullMethod(fullMethod).value.service;
      FindFirstFinds(files1, name);
      FindFirstFinds(files2, name);
      assert forall s :: Declares(files1, s) <==> Declares(files2, s);
    }
  }

  /** Some service of the registry has a method of that full name, with these options. */
  ghost predicate HasOptions(files: seq<File>, fullMethod: string, o: MethodOptions) {
    exists s, name | Declares(files, s) && name in s.methods && '/' !in name ::
      fullMethod == PrintFullMethod(RpcMethod(s.name, name)) && s.methods[name] == o
  }

  lemma FindsDeclared(files: seq<File>, s: Service, name: string)
    requires UniqueNames(files) && Declares(files, s) && name in s.methods && '/' !in name
    ensures LookupPolicy(files, PrintFullMethod(RpcMethod(s.name, name))) == PolicyOf(Some(s), name)
  {
    PrintThenParse(RpcMethod(s.name, name));
    FindFirstFinds(files, s.name);
  }

  lemma FoundIsDeclared(files: seq<File>, fullMethod: string, o: MethodOptions)
    requires ParseFullMethod(fullMethod).Ok?
    requires
      var m := ParseFullMethod(fullMethod).value;
      var s := FindFirst(files, m.service);
      s.Some? && m.methodName in s.value.methods && s.value.methods[m.methodName] == o
    ensures HasOptions(files, fullMethod, o)
  {
    ParseThenPrint(fullMethod);
    FindFirstFinds(files, ParseFullMethod(fullMethod).value.service);
  }

  /** A method of that full name decides the lookup. */
  lemma OptionsDecide(files: seq<File>, fullMethod: string, o: MethodOptions)
    requires UniqueNames(files) && HasOptions(files, fullMethod, o)
    ensures LookupPolicy(files, fullMethod)
            == (match o case NoOptions => Ok(None) case ForeignOptions => Err("bad options")
                case Options(p) => Ok(p))
    ensures ParseFullMethod(fullMethod).Ok?
  {
    var s, name :| Declares(files, s) && name in s.methods && '/' !in name
                   && fullMethod == PrintFullMethod(RpcMethod(s.name, name)) && s.methods[name] == o;
    PrintThenParse(RpcMethod(s.name, name));
    FindsDeclared(files, s, name);
  }

  /**
   The lookup finds exactly the policy in the options of the method of that full name; it fails exactly
   when the name is no full method name, or its method has options of an unexpected type.
   */
  lemma LookupExactly(files: seq<File>, fullMethod: string, p: ProtoPolicy)
    requires UniqueNames(files)
    ensures LookupPolicy(files, fullMethod) == Ok(Some(p)) <==> HasOptions(files, fullMethod, Options(Some(p)))
    ensures LookupPolicy(files, fullMethod).Err? <==>
            || !(exists m: RpcMethod :: '/' !in m.methodName && fullMethod == PrintFullMethod(m))
            || HasOptions(files, fullMethod, ForeignOptions)
  {
    ParsesExactlyPrinted(fullMethod);
    if HasOptions(files, fullMethod, Options(Some(p))) {
      OptionsDecide(files, fullMethod, Options(Some(p)));
    } else if LookupPolicy(files, fullMethod) == Ok(Some(p)) {
      FoundIsDeclared(files, fullMethod, Options(Some(p)));
    }
    if HasOptions(files, fullMethod, ForeignOptions) {
      OptionsDecide(files, fullMethod, ForeignOptions);
    } else if LookupPolicy(files, fullMethod).Err? && ParseFullMethod(fullMethod).Ok? {
      FoundIsDeclared(files, fullMethod, ForeignOptions);
    }
  }

  // ------------------------------------------------------- the memo table

  /** The policies of one interceptor instance; the scan order may differ from scan to scan. */
  class PolicyMemo {
    var cache: map<string, Answer>

    ghost predicate Agrees(files: seq<File>)
      reads this
    {
      forall m | m in cache :: cache[m] == LookupPolicy(files, m)
    }

    constructor ()
      ensures cache == map[]
    {
      cache := map[];
    }

    /** getMethodPolicy, scanning the registry `files` in the order `scanned` when it misses. */
    method GetMethodPolicy(ghost files: seq<File>, scanned: seq<File>, fullMethod: string) returns (r: Answer)
      requires UniqueNames(files) && SameFiles(files, scanned) && Agrees(files)
      modifies this
      ensures Agrees(files) && r == LookupPolicy(files, fullMethod)
      ensures cache == old(cache)[fullMethod := r]
    {
      if fullMethod in cache { return cache[fullMethod]; }
      r := LookupMethodPolicy(scanned, fullMethod);
      LookupIgnoresFileOrder(files, scanned, fullMethod);
      cache := cache[fullMethod := r];
    }
  }
}

/** getMethodPolicy called concurrently: Load, the scan and Store are separate steps. */
module PolicyMemoProtocol {
  import opened Results
  import opened MethodPolicy

  datatype Pc = Loading(name: string) | Missed(name: string) | Scanned(name: string, answer: Answer)

  datatype State = State(cache: map<string, Answer>, threads: map<nat, Pc>, answered: set<(string, Answer)>)

  datatype Action = Begin(t: nat, name: string) | Load(t: nat) | Scan(t: nat, order: seq<File>) | Store(t: nat)

  function Init(): State { State(map[], map[], {}) }

  predicate Ready(s: State, a: Action) {
    match a
    case Begin(t, _) => t !in s.threads
    case Load(t) => t in s.threads && s.threads[t].Loading?
    case Scan(t, _) => t in s.threads && s.threads[t].Missed?
    case Store(t) => t in s.threads && s.threads[t].Scanned?
  }

  /** A scan sees the files of the registry, in any order. */
  ghost predicate Enabled(files: seq<File>, s: State, a: Action) {
    Ready(s, a) && (a.Scan? ==> SameFiles(files, a.order))
  }

  function Apply(s: State, a: Action): State
    requires Ready(s, a)
  {
    match a
    case Begin(t, name) => s.(threads := s.threads[t := Loading(name)])
    case Load(t) =>
      var n := s.threads[t].name;
      if n in s.cache then s.(threads := s.threads - {t}, answered := s.answered + {(n, s.cache[n])})
      else s.(threads := s.threads[t := Missed(n)])
    case Scan(t, order) =>
      var n := s.threads[t].name;
      s.(threads := s.threads[t := Scanned(n, LookupPolicy(order, n))])
    case Store(t) =>
      var n, r := s.threads[t].name, s.threads[t].answer;
      State(s.cache[n := r], s.threads - {t}, s.answered + {(n, r)})
  }

  ghost function Reached(files: seq<File>, run: seq<Action>): Option<State> {
    if run == [] then Some(Init())
    else
      match Reached(files, run[..|run| - 1])
      case None => None
      case Some(s) =>
        if Enabled(files, s, run[|run| - 1]) then Some(Apply(s, run[|run| - 1])) else None
  }

  ghost predicate Agrees(files: seq<File>, s: State) {
    && (forall n | n in s.cache :: s.cache[n] == LookupPolicy(files, n))
    && (forall t | t in s.threads && s.threads[t].Scanned? ::
          s.threads[t].answer == LookupPolicy(files, s.threads[t].name))
    && (forall q | q in s.answered :: q.1 == LookupPolicy(files, q.0))
  }

  lemma AgreesAfterStep(files: seq<File>, s: State, a: Action)
    requires UniqueNames(files) && Agrees(files, s) && Enabled(files, s, a)
    ensures Agrees(files, Apply(s, a))
  {
    if a.Scan? {
      LookupIgnoresFileOrder(files, a.order, s.threads[a.t].name);
    }
  }

  /** In every interleaving of callers, every answer, cached or scanned, is the direct lookup. */
  lemma {:induction false} AnswersAreLookups(files: seq<File>, run: seq<Action>)
    requires UniqueNames(files) && Reached(files, run).Some?
    ensures Agrees(files, Reached(files, run).value)
  {
    if run == [] {
    } else {
      AnswersAreLookups(files, run[..|run| - 1]);
      AgreesAfterStep(files, Reached(files, run[..|run| - 1]).value, run[|run| - 1]);
    }
  }
}
