/** Service registration and lookup by "service.method". */
module Registry {
  import opened GoTypes

  /** A method of a service type: `callable` if its signature is one of those
      that can be called, `code` standing for the method itself. */
  datatype MethodDesc = MethodDesc(name: string, callable: bool, code: int)

  /** A registered object: the name and methods of its type. */
  datatype Service = Service(name: string, methods: seq<MethodDesc>)

  /** What a call is dispatched to. */
  datatype Entry = Entry(service: string, desc: MethodDesc)

  datatype ServiceInstance = ServiceInstance(listed: seq<string>, methods: map<string, Entry>)

  datatype Registry = Registry(instances: map<string, ServiceInstance>, services: seq<string>, table: map<string, Entry>)

  const EMPTY := Registry(map[], [], map[])

  const SUFFIX := "Service"

  function Key(service: string, name: string): string {
    service + "." + name
  }

  predicate HasSuffix(s: string) {
    |s| >= |SUFFIX| && s[|s| - |SUFFIX|..] == SUFFIX
  }

  predicate Accepted(m: MethodDesc) {
    m.name != "" && 'A' <= m.name[0] <= 'Z' && m.callable
  }

  /** The instance is made on the first registration of the name. */
  function WithInstance(r: Registry, name: string): Registry {
    if name in r.instances then r
    else r.(instances := r.instances[name := ServiceInstance([], map[])], services := r.services + [name])
  }

  /** A name ending in Service answers to the rest of it too, unless that is the
      name of a service already; "" stands for no alias. */
  function AliasOf(r: Registry, name: string): string {
    if HasSuffix(name) && name[..|name| - |SUFFIX|] !in r.instances then name[..|name| - |SUFFIX|] else ""
  }

  /** One pass of the loop over the methods. */
  function WithMethod(r: Registry, name: string, alias: string, m: MethodDesc): Registry
    requires name in r.instances
  {
    var srv := r.instances[name];
    if !Accepted(m) || m.name in srv.methods then r
    else
      var e := Entry(name, m);
      var direct := r.table[Key(name, m.name) := e];
      Registry(r.instances[name := ServiceInstance(srv.listed + [m.name], srv.methods[m.name := e])], r.services,
        if alias != "" then direct[Key(alias, m.name) := e] else direct)
  }

  function WithMethods(r: Registry, name: string, alias: string, methods: seq<MethodDesc>, n: nat): (r': Registry)
    requires name in r.instances && n <= |methods|
    ensures r'.instances.Keys == r.instances.Keys && r'.services == r.services
  {
    if n == 0 then r else WithMethod(WithMethods(r, name, alias, methods, n - 1), name, alias, methods[n - 1])
  }

  function Register(r: Registry, s: Service): Registry {
    var r1 := WithInstance(r, s.name);
    WithMethods(r1, s.name, AliasOf(r1, s.name), s.methods, |s.methods|)
  }

  function RegisterAll(h: seq<Service>): Registry {
    if h == [] then EMPTY else Register(RegisterAll(h[..|h| - 1]), h[|h| - 1])
  }

  function Lookup(r: Registry, service: string, name: string): Option<Entry> {
    if Key(service, name) in r.table then Some(r.table[Key(service, name)]) else None
  }

  class LynkService {
    var mapServices: map<string, ServiceInstance>
    var services: seq<string>
    var mapServiceMethods: map<string, Entry>

    constructor ()
      ensures Current() == EMPTY
    {
      mapServices, services, mapServiceMethods := map[], [], map[];
    }

    function Current(): Registry
      reads this
    {
      Registry(mapServices, services, mapServiceMethods)
    }

    method RegisterService(s: Service)
      modifies this
      ensures Current() == Register(old(Current()), s)
    {
      var srvName := s.name;
      if srvName !in mapServices {
        mapServices := mapServices[srvName := ServiceInstance([], map[])];
        services := services + [srvName];
      }
      ghost var r1 := Current();
      var alias := "";
      if HasSuffix(srvName) {
        alias := srvName[..|srvName| - |SUFFIX|];
        if alias in mapServices {
          alias := "";
        }
      }
      for i := 0 to |s.methods|
        invariant srvName in mapServices
        invariant Current() == WithMethods(r1, srvName, alias, s.methods, i)
      {
        var m := s.methods[i];
        if Accepted(m) && m.name !in mapServices[srvName].methods {
          var srv := mapServices[srvName];
          var call := Entry(srvName, m);
          mapServices := mapServices[srvName :=
            ServiceInstance(srv.listed + [m.name], srv.methods[m.name := call])];
          mapServiceMethods := mapServiceMethods[Key(srvName, m.name) := call];
          if alias != "" {
            mapServiceMethods := mapServiceMethods[Key(alias, m.name) := call];
          }
        }
      }
    }

    method LookupMethod(service: string, name: string) returns (hit: Option<Entry>)
      ensures hit == Lookup(Current(), service, name)
    {
      if Key(service, name) !in mapServiceMethods {
        return None;
      }
      hit := Some(mapServiceMethods[Key(service, name)]);
    }
  }

  // -------------------------------------------------------------- dispatch keys

  /** Go method names contain no dot. */
  predicate DotFree(s: string) {
    '.' !in s
  }

  /** The key determines service and method. */
  lemma KeyInjective(s: string, m: string, s': string, m': string)
    requires DotFree(m) && DotFree(m') && Key(s, m) == Key(s', m')
    ensures s == s' && m == m'
  {
    var k := Key(s, m);
    assert k[|s|] == '.' && k[|s'|] == '.';
    assert forall i :: |s| < i < |k| ==> k[i] == m[i - |s| - 1];
    assert forall i :: |s'| < i < |k| ==> k[i] == m'[i - |s'| - 1];
    assert |s| == |s'|;
    assert s == k[..|s|] && s' == k[..|s'|];
    assert m == k[|s| + 1..] && m' == k[|s'| + 1..];
  }

  // ------------------------------------------------------------------ histories

  ghost predicate NamesDotFree(h: seq<Service>) {
    forall i, j :: 0 <= i < |h| && 0 <= j < |h[i].methods| ==> DotFree(h[i].methods[j].name)
  }

  /** The first accepted method of that name. */
  function FirstIn(methods: seq<MethodDesc>, m: string): Option<MethodDesc> {
    if methods == [] then None
    else
      var front, last := FirstIn(methods[..|methods| - 1], m), methods[|methods| - 1];
      if front.Some? then front else if Accepted(last) && last.name == m then Some(last) else None
  }

  /** The method m of service s: the first one registered under those names. */
  function FirstMethod(h: seq<Service>, s: string, m: string): Option<MethodDesc> {
    if h == [] then None
    else
      var front, last := FirstMethod(h[..|h| - 1], s, m), h[|h| - 1];
      if front.Some? then front else if last.name == s then FirstIn(last.methods, m) else None
  }

  ghost predicate IsRegistered(h: seq<Service>, s: string) {
    exists i :: 0 <= i < |h| && h[i].name == s
  }

  ghost predicate NoRepeats(s: seq<string>) {
    forall i, j :: 0 <= i < j < |s| ==> s[i] != s[j]
  }

  /** s is known exactly if it was registered, and is listed once. */
  ghost predicate NameOk(h: seq<Service>, r: Registry, s: string) {
    && (s in r.services <==> s in r.instances)
    && (s in r.instances <==> IsRegistered(h, s))
    && (s in r.instances ==> NoRepeats(r.instances[s].listed))
  }

  /** m is a method of the instance s exactly if one was registered, the first
      one; and it is listed exactly then. */
  ghost predicate InstanceOk(h: seq<Service>, r: Registry, s: string, m: string) {
    s in r.instances ==>
      var srv := r.instances[s];
      && (m in srv.listed <==> m in srv.methods)
      && (m in srv.methods <==> FirstMethod(h, s, m).Some?)
      && (m in srv.methods ==> srv.methods[m] == Entry(s, FirstMethod(h, s, m).value))
  }

  /** A service's own method is found under its own name. */
  ghost predicate DirectOk(h: seq<Service>, r: Registry, s: string, m: string) {
    FirstMethod(h, s, m).Some? ==>
      Key(s, m) in r.table && r.table[Key(s, m)] == Entry(s, FirstMethod(h, s, m).value)
  }

  /** Whatever is found under s is a method of s or of sService. */
  ghost predicate FoundOk(h: seq<Service>, r: Registry, s: string, m: string) {
    DotFree(m) && Key(s, m) in r.table ==>
      var e := r.table[Key(s, m)];
      (e.service == s || e.service == s + SUFFIX) && FirstMethod(h, e.service, m) == Some(e.desc)
  }

  /** Until s is registered itself, a method of sService is found under s too. */
  ghost predicate AliasOk(h: seq<Service>, r: Registry, s: string, m: string) {
    s != "" && !IsRegistered(h, s) && FirstMethod(h, s + SUFFIX, m).Some? ==>
      Key(s, m) in r.table && r.table[Key(s, m)] == Entry(s + SUFFIX, FirstMethod(h, s + SUFFIX, m).value)
  }

  ghost predicate MethodOk(h: seq<Service>, r: Registry, s: string, m: string) {
    InstanceOk(h, r, s, m) && DirectOk(h, r, s, m) && FoundOk(h, r, s, m) && AliasOk(h, r, s, m)
  }

  /** alias is the name that methods of `name` are also entered under, if any. */
  ghost predicate IsAlias(r: Registry, name: string, alias: string) {
    && (alias != "" ==> name == alias + SUFFIX && alias !in r.instances)
    && (forall s :: s != "" && name == s + SUFFIX && s !in r.instances ==> alias == s)
  }

  lemma AliasIs(r: Registry, name: string)
    ensures IsAlias(r, name, AliasOf(r, name))
  {
    forall s | s != "" && name == s + SUFFIX && s !in r.instances ensures AliasOf(r, name) == s {
      assert name[..|name| - |SUFFIX|] == s;
    }
    if HasSuffix(name) {
      var stem := name[..|name| - |SUFFIX|];
      assert name == stem + name[|stem|..];
    }
  }

  ghost predicate Describes(h: seq<Service>, r: Registry) {
    && NoRepeats(r.services)
    && (forall s :: NameOk(h, r, s))
    && (forall s, m :: MethodOk(h, r, s, m))
  }

  /** A history whose last object has shown its first n methods. */
  function Partial(h: seq<Service>, s: Service, n: nat): seq<Service>
    requires n <= |s.methods|
  {
    h + [Service(s.name, s.methods[..n])]
  }

  lemma FirstInPartial(h: seq<Service>, s: Service, n: nat, name: string, m: string)
    requires n < |s.methods|
    ensures var old' := FirstMethod(Partial(h, s, n), name, m);
      FirstMethod(Partial(h, s, n + 1), name, m) ==
        if old'.Some? then old'
        else if name == s.name && Accepted(s.methods[n]) && s.methods[n].name == m then Some(s.methods[n])
        else None
  {
    var p, p' := Partial(h, s, n), Partial(h, s, n + 1);
    assert p[..|h|] == h && p'[..|h|] == h;
    assert s.methods[..n + 1][..n] == s.methods[..n];
  }

  lemma FirstHasName(methods: seq<MethodDesc>, m: string)
    ensures FirstIn(methods, m).Some? ==> FirstIn(methods, m).value in methods && FirstIn(methods, m).value.name == m
    decreases |methods|
  {
  }

  /** The method can be called and its name starts with a capital. */
  predicate Exports(desc: MethodDesc) {
    desc.callable && desc.name != "" && desc.name[0] in "ABCDEFGHIJKLMNOPQRSTUVWXYZ"
  }

  lemma AcceptedIff(desc: MethodDesc)
    ensures Accepted(desc) <==> Exports(desc)
  {
    var upper := "ABCDEFGHIJKLMNOPQRSTUVWXYZ";
    if desc.name != "" && 'A' <= desc.name[0] <= 'Z' {
      assert upper[desc.name[0] as int - 'A' as int] == desc.name[0];
    }
  }

  predicate Offers(methods: seq<MethodDesc>, i: int, m: string) {
    0 <= i < |methods| && methods[i].name == m && Exports(methods[i])
  }

  /** What is found among the methods of a type is the first of that name that is
      exported and can be called. */
  lemma {:induction false} FirstInIff(methods: seq<MethodDesc>, m: string)
    ensures match FirstIn(methods, m) {
        case None => forall j :: !Offers(methods, j, m)
        case Some(desc) => exists i :: Offers(methods, i, m) && methods[i] == desc && forall j :: j < i ==> !Offers(methods, j, m)
      }
    decreases |methods|
  {
    if methods != [] {
      var n := |methods| - 1;
      var front := methods[..n];
      FirstInIff(front, m);
      AcceptedIff(methods[n]);
      assert forall j :: j < n ==> (Offers(methods, j, m) <==> Offers(front, j, m));
      if FirstIn(front, m).Some? {
        var i :| Offers(front, i, m) && front[i] == FirstIn(front, m).value && forall j :: j < i ==> !Offers(front, j, m);
        assert Offers(methods, i, m) && methods[i] == front[i];
      } else if Accepted(methods[n]) && methods[n].name == m {
        assert Offers(methods, n, m);
      }
    }
  }

  lemma {:induction false} FirstIsDotFree(h: seq<Service>, s: string, m: string)
    requires NamesDotFree(h) && FirstMethod(h, s, m).Some?
    ensures DotFree(m) && IsRegistered(h, s)
    decreases |h|
  {
    var front, last := h[..|h| - 1], h[|h| - 1];
    if FirstMethod(front, s, m).Some? {
      FirstIsDotFree(front, s, m);
      var i :| 0 <= i < |front| && front[i].name == s;
      assert h[i].name == s;
    } else {
      FirstHasName(last.methods, m);
      var j :| 0 <= j < |last.methods| && last.methods[j] == FirstIn(last.methods, m).value;
      assert DotFree(h[|h| - 1].methods[j].name);
    }
  }

  lemma FirstInStart(h: seq<Service>, s: Service, name: string, m: string)
    ensures FirstMethod(Partial(h, s, 0), name, m) == FirstMethod(h, name, m)
    ensures IsRegistered(Partial(h, s, 0), name) <==> IsRegistered(h, name) || name == s.name
  {
    var p := Partial(h, s, 0);
    assert p[..|h|] == h && p[|h|] == Service(s.name, []);
    if IsRegistered(h, name) {
      var i :| 0 <= i < |h| && h[i].name == name;
      assert p[i].name == name;
    }
  }

  lemma InstanceStepName(h: seq<Service>, r: Registry, s: Service, name: string)
    requires NameOk(h, r, name) && NameOk(h, r, s.name)
    ensures NameOk(Partial(h, s, 0), WithInstance(r, s.name), name)
  {
    FirstInStart(h, s, name, "");
  }

  lemma InstanceStepMethod(h: seq<Service>, r: Registry, s: Service, name: string, m: string)
    requires NameOk(h, r, name) && MethodOk(h, r, name, m)
    ensures MethodOk(Partial(h, s, 0), WithInstance(r, s.name), name, m)
  {
    FirstInStart(h, s, name, m);
    FirstInStart(h, s, name + SUFFIX, m);
    if name !in r.instances {
      UnregisteredHasNone(h, name, m);
    }
  }

  lemma InstanceStep(h: seq<Service>, r: Registry, s: Service)
    requires Describes(h, r)
    ensures Describes(Partial(h, s, 0), WithInstance(r, s.name))
  {
    var p, r' := Partial(h, s, 0), WithInstance(r, s.name);
    assert NameOk(h, r, s.name);
    forall name ensures NameOk(p, r', name) {
      assert NameOk(h, r, name);
      InstanceStepName(h, r, s, name);
    }
    forall name, m ensures MethodOk(p, r', name, m) {
      assert MethodOk(h, r, name, m) && NameOk(h, r, name);
      InstanceStepMethod(h, r, s, name, m);
    }
  }

  lemma {:induction false} UnregisteredHasNone(h: seq<Service>, s: string, m: string)
    requires !IsRegistered(h, s)
    ensures FirstMethod(h, s, m).None?
    decreases |h|
  {
    if h != [] {
      var front := h[..|h| - 1];
      assert h[|h| - 1].name != s;
      assert forall i :: 0 <= i < |front| ==> front[i] == h[i];
      UnregisteredHasNone(front, s, m);
    }
  }

  /** Histories with the same methods and services describe the same registry. */
  lemma SameHistory(h: seq<Service>, h': seq<Service>, r: Registry)
    requires Describes(h, r)
    requires forall s, m :: FirstMethod(h', s, m) == FirstMethod(h, s, m)
    requires forall s :: IsRegistered(h', s) <==> IsRegistered(h, s)
    ensures Describes(h', r)
  {
    forall s ensures NameOk(h', r, s) {
      assert NameOk(h, r, s);
    }
    forall s, m ensures MethodOk(h', r, s, m) {
      assert MethodOk(h, r, s, m);
    }
  }

  lemma PartialRegistered(h: seq<Service>, s: Service, n: nat, name: string)
    requires n < |s.methods|
    ensures IsRegistered(Partial(h, s, n + 1), name) <==> IsRegistered(Partial(h, s, n), name)
  {
    var p, p' := Partial(h, s, n), Partial(h, s, n + 1);
    assert forall i :: 0 <= i < |p| ==> p[i].name == p'[i].name;
  }

  lemma PartialDotFree(h: seq<Service>, s: Service, n: nat)
    requires n <= |s.methods| && NamesDotFree(h + [s])
    ensures NamesDotFree(Partial(h, s, n))
  {
    var all, p := h + [s], Partial(h, s, n);
    forall i, j | 0 <= i < |p| && 0 <= j < |p[i].methods| ensures DotFree(p[i].methods[j].name) {
      assert p[i].methods[j] == all[i].methods[j];
    }
  }

  /** What the new entry does to the keys of the table. */
  lemma NewEntry(h: seq<Service>, r: Registry, s: Service, alias: string, n: nat, name: string, m: string)
    requires n < |s.methods| && Describes(Partial(h, s, n), r) && s.name in r.instances
    requires NamesDotFree(h + [s]) && Accepted(s.methods[n]) && s.methods[n].name !in r.instances[s.name].methods
    requires IsAlias(r, s.name, alias)
    ensures var p', r' := Partial(h, s, n + 1), WithMethod(r, s.name, alias, s.methods[n]);
      InstanceOk(p', r', name, m) && DirectOk(p', r', name, m) && FoundOk(p', r', name, m)
  {
    var p, p' := Partial(h, s, n), Partial(h, s, n + 1);
    var m0 := s.methods[n];
    assert DotFree(m0.name) by {
      assert (h + [s])[|h|] == s;
    }
    assert MethodOk(p, r, s.name, m0.name) && MethodOk(p, r, name, m) && NameOk(p, r, name);
    FirstInPartial(h, s, n, name, m);
    FirstInPartial(h, s, n, name + SUFFIX, m);
    if FirstMethod(p, name, m).Some? {
      PartialDotFree(h, s, n);
      FirstIsDotFree(p, name, m);
    }
    if DotFree(m) {
      if Key(name, m) == Key(s.name, m0.name) {
        KeyInjective(name, m, s.name, m0.name);
      }
      if Key(name, m) == Key(alias, m0.name) {
        KeyInjective(name, m, alias, m0.name);
      }
    }
  }

  /** And to a name that nothing was registered under. */
  lemma NewAlias(h: seq<Service>, r: Registry, s: Service, alias: string, n: nat, name: string, m: string)
    requires n < |s.methods| && Describes(Partial(h, s, n), r) && s.name in r.instances
    requires NamesDotFree(h + [s]) && Accepted(s.methods[n]) && s.methods[n].name !in r.instances[s.name].methods
    requires IsAlias(r, s.name, alias)
    requires name != "" && !IsRegistered(Partial(h, s, n + 1), name)
    requires FirstMethod(Partial(h, s, n + 1), name + SUFFIX, m).Some?
    ensures AliasOk(Partial(h, s, n + 1), WithMethod(r, s.name, alias, s.methods[n]), name, m)
  {
    var p, p' := Partial(h, s, n), Partial(h, s, n + 1);
    var m0 := s.methods[n];
    PartialDotFree(h, s, n + 1);
    FirstIsDotFree(p', name + SUFFIX, m);
    assert DotFree(m0.name) by {
      assert (h + [s])[|h|] == s;
    }
    PartialRegistered(h, s, n, name);
    assert p'[|h|].name == s.name;
    assert name != s.name;
    assert NameOk(p, r, name) && MethodOk(p, r, name, m) && MethodOk(p, r, s.name, m0.name);
    FirstInPartial(h, s, n, name + SUFFIX, m);
    if Key(name, m) == Key(s.name, m0.name) {
      KeyInjective(name, m, s.name, m0.name);
    }
    if Key(name, m) == Key(alias, m0.name) {
      KeyInjective(name, m, alias, m0.name);
    }
  }

  lemma MethodStep(h: seq<Service>, r: Registry, s: Service, alias: string, n: nat)
    requires n < |s.methods| && Describes(Partial(h, s, n), r) && s.name in r.instances
    requires NamesDotFree(h + [s])
    requires IsAlias(r, s.name, alias)
    ensures Describes(Partial(h, s, n + 1), WithMethod(r, s.name, alias, s.methods[n]))
  {
    var p, p' := Partial(h, s, n), Partial(h, s, n + 1);
    var r', m0 := WithMethod(r, s.name, alias, s.methods[n]), s.methods[n];
    if !Accepted(m0) || m0.name in r.instances[s.name].methods {
      forall name ensures IsRegistered(p', name) <==> IsRegistered(p, name) {
        PartialRegistered(h, s, n, name);
      }
      assert MethodOk(p, r, s.name, m0.name);
      forall name, m ensures FirstMethod(p', name, m) == FirstMethod(p, name, m) {
        FirstInPartial(h, s, n, name, m);
      }
      SameHistory(p, p', r);
    } else {
      forall name ensures NameOk(p', r', name) {
        assert NameOk(p, r, name) && NameOk(p, r, s.name) && MethodOk(p, r, s.name, m0.name);
        PartialRegistered(h, s, n, name);
      }
      forall name, m ensures MethodOk(p', r', name, m) {
        NewEntry(h, r, s, alias, n, name, m);
        if name != "" && !IsRegistered(p', name) && FirstMethod(p', name + SUFFIX, m).Some? {
          NewAlias(h, r, s, alias, n, name, m);
        }
      }
    }
  }

  lemma {:induction false} MethodsStep(h: seq<Service>, r: Registry, s: Service, alias: string, n: nat)
    requires n <= |s.methods| && Describes(Partial(h, s, 0), r) && s.name in r.instances
    requires NamesDotFree(h + [s])
    requires IsAlias(r, s.name, alias)
    ensures Describes(Partial(h, s, n), WithMethods(r, s.name, alias, s.methods, n))
    decreases n
  {
    if n > 0 {
      var before := WithMethods(r, s.name, alias, s.methods, n - 1);
      var after := WithMethod(before, s.name, alias, s.methods[n - 1]);
      assert Describes(Partial(h, s, n), after) by {
        MethodsStep(h, r, s, alias, n - 1);
        MethodStep(h, before, s, alias, n - 1);
      }
      assert after == WithMethods(r, s.name, alias, s.methods, n);
    }
  }

  /** For every history of registrations, in any order and with repetitions: each
      service and each method is listed once; a registered service's own method
      is found under its own name, whatever aliases there are; what is found
      under a name is a method of that service or of the one it is an alias of;
      and an alias works until a service of that name is registered. */
  lemma {:induction false} RegisteredIsDescribed(h: seq<Service>)
    requires NamesDotFree(h)
    ensures Describes(h, RegisterAll(h))
    decreases |h|
  {
    if h != [] {
      var front, s := h[..|h| - 1], h[|h| - 1];
      assert h == front + [s];
      assert NamesDotFree(front) by {
        assert forall i :: 0 <= i < |front| ==> front[i] == h[i];
      }
      RegisteredIsDescribed(front);
      var r := RegisterAll(front);
      InstanceStep(front, r, s);
      var r1 := WithInstance(r, s.name);
      AliasIs(r1, s.name);
      MethodsStep(front, r1, s, AliasOf(r1, s.name), |s.methods|);
      assert s.methods[..|s.methods|] == s.methods;
      assert Partial(front, s, |s.methods|) == h;
    }
  }

  /** lookup of a registered service's own method. */
  lemma LookupOwn(h: seq<Service>, s: string, m: string)
    requires NamesDotFree(h) && FirstMethod(h, s, m).Some?
    ensures Lookup(RegisterAll(h), s, m) == Some(Entry(s, FirstMethod(h, s, m).value))
  {
    RegisteredIsDescribed(h);
    assert MethodOk(h, RegisterAll(h), s, m);
  }

  /** A name under which nothing was registered finds the method of the service it
      is the alias of, or nothing. */
  lemma LookupAlias(h: seq<Service>, s: string, m: string)
    requires NamesDotFree(h) && DotFree(m) && s != "" && !IsRegistered(h, s)
    ensures Lookup(RegisterAll(h), s, m) ==
      match FirstMethod(h, s + "Service", m) {
        case Some(desc) => Some(Entry(s + "Service", desc))
        case None => None
      }
  {
    RegisteredIsDescribed(h);
    UnregisteredHasNone(h, s, m);
    assert MethodOk(h, RegisterAll(h), s, m);
  }
}
