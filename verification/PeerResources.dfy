/**
 What the native side of peer creation borrows from the JVM and the C heap, and that it gives all
 of it back on every way out, whichever calls fail.
 */
module PeerResources {
  import opened Bytes

  /** A local reference to a Java object, a string's borrowed UTF characters, a global reference, or a heap block. */
  datatype Resource =
    | LocalRef(id: nat, text: string)
    | Chars(id: nat, ref: nat, text: string)
    | GlobalRef(id: nat)
    | Block(id: nat)

  /** A slot of a C array: unwritten after malloc, then NULL or a pointer. */
  datatype Slot = Unwritten | Written(pointer: Option<Resource>)

  /** The JNI environment and the allocator. Any acquisition may fail; a release needs what is held. */
  class Env {
    var held: set<Resource>
    var next: nat
    ghost var mallocs: nat
    ghost var failures: nat

    ghost predicate Valid() reads this {
      forall r :: r in held ==> r.id < next
    }

    constructor ()
      ensures Valid() && held == {}
    {
      held, next, mallocs, failures := {}, 0, 0, 0;
    }

    /** Since `before`, at most the new resource `r` was added. */
    ghost predicate Gained(before: set<Resource>, start: nat, r: Option<Resource>) reads this {
      && start <= next
      && held == (if r.Some? then before + {r.value} else before)
      && (r.Some? ==> r.value !in before && r.value.id >= start)
    }

    method GetObjectArrayElement(elements: seq<Option<string>>, i: nat) returns (r: Option<Resource>)
      requires Valid() && i < |elements|
      modifies this
      ensures Valid() && Gained(old(held), old(next), r) && mallocs == old(mallocs)
      ensures failures == old(failures) + if r.Some? then 0 else 1
      ensures r.Some? ==> r.value.LocalRef? && elements[i] == Some(r.value.text)
    {
      r := None;
      var succeeds: bool := *;
      if succeeds && elements[i].Some? {
        r := Some(LocalRef(next, elements[i].value));
        held, next := held + {r.value}, next + 1;
      } else {
        failures := failures + 1;
      }
    }

    method GetStringUTFChars(ref: Resource) returns (r: Option<Resource>)
      requires Valid() && ref.LocalRef? && ref in held
      modifies this
      ensures Valid() && Gained(old(held), old(next), r) && mallocs == old(mallocs)
      ensures failures == old(failures) + if r.Some? then 0 else 1
      ensures r.Some? ==> r.value.Chars? && r.value.ref == ref.id && r.value.text == ref.text
    {
      r := None;
      var succeeds: bool := *;
      if succeeds {
        r := Some(Chars(next, ref.id, ref.text));
        held, next := held + {r.value}, next + 1;
      } else {
        failures := failures + 1;
      }
    }

    method ReleaseStringUTFChars(ref: Resource, chars: Resource)
      requires Valid() && ref.LocalRef? && ref in held && chars.Chars? && chars in held && chars.ref == ref.id
      modifies this
      ensures Valid() && held == old(held) - {chars} && next == old(next)
      ensures mallocs == old(mallocs) && failures == old(failures)
    {
      held := held - {chars};
    }

    method DeleteLocalRef(ref: Resource)
      requires Valid() && ref.LocalRef? && ref in held
      modifies this
      ensures Valid() && held == old(held) - {ref} && next == old(next)
      ensures mallocs == old(mallocs) && failures == old(failures)
    {
      held := held - {ref};
    }

    /** A new reference from the JVM: `NewStringUTF`, or a buffer from the Java allocator. */
    method NewRef(text: string) returns (r: Option<Resource>)
      requires Valid()
      modifies this
      ensures Valid() && Gained(old(held), old(next), r) && mallocs == old(mallocs)
      ensures failures == old(failures) + if r.Some? then 0 else 1
      ensures r.Some? ==> r.value.LocalRef? && r.value.text == text
    {
      r := None;
      var succeeds: bool := *;
      if succeeds {
        r := Some(LocalRef(next, text));
        held, next := held + {r.value}, next + 1;
      } else {
        failures := failures + 1;
      }
    }

    method NewGlobalRef() returns (r: Option<Resource>)
      requires Valid()
      modifies this
      ensures Valid() && Gained(old(held), old(next), r) && mallocs == old(mallocs)
      ensures failures == old(failures) + if r.Some? then 0 else 1
      ensures r.Some? ==> r.value.GlobalRef?
    {
      r := None;
      var succeeds: bool := *;
      if succeeds {
        r := Some(GlobalRef(next));
        held, next := held + {r.value}, next + 1;
      } else {
        failures := failures + 1;
      }
    }

    method DeleteGlobalRef(ref: Resource)
      requires Valid() && ref.GlobalRef? && ref in held
      modifies this
      ensures Valid() && held == old(held) - {ref} && next == old(next)
      ensures mallocs == old(mallocs) && failures == old(failures)
    {
      held := held - {ref};
    }

    method Malloc() returns (r: Option<Resource>)
      requires Valid()
      modifies this
      ensures Valid() && Gained(old(held), old(next), r) && mallocs == old(mallocs) + 1
      ensures failures == old(failures) + if r.Some? then 0 else 1
      ensures r.Some? ==> r.value.Block?
    {
      r := None;
      mallocs := mallocs + 1;
      var succeeds: bool := *;
      if succeeds {
        r := Some(Block(next));
        held, next := held + {r.value}, next + 1;
      } else {
        failures := failures + 1;
      }
    }

    /** `free(NULL)` does nothing. */
    method Free(block: Option<Resource>)
      requires Valid() && (block.Some? ==> block.value.Block? && block.value in held)
      modifies this
      ensures Valid() && next == old(next) && mallocs == old(mallocs) && failures == old(failures)
      ensures held == if block.Some? then old(held) - {block.value} else old(held)
    {
      if block.Some? { held := held - {block.value}; }
    }
  }

  // ---- Borrowed servers ----------------------------------------------------------------

  /** One server: its string reference and the characters borrowed from it. */
  datatype Server = Server(ref: Resource, chars: Resource)

  ghost predicate Matched(s: Server) {
    s.ref.LocalRef? && s.chars.Chars? && s.chars.ref == s.ref.id && s.chars.text == s.ref.text
  }

  ghost function Loans(servers: seq<Server>): set<Resource> {
    if servers == [] then {}
    else Loans(servers[..|servers| - 1]) + {servers[|servers| - 1].ref, servers[|servers| - 1].chars}
  }

  /** The ledger is `base` and the loans of `servers`, all different. */
  ghost predicate Owes(held: set<Resource>, base: set<Resource>, servers: seq<Server>) {
    && (forall s :: s in servers ==> Matched(s))
    && if servers == [] then held == base
       else
         var last := servers[|servers| - 1];
         && last.ref in held && last.chars in held
         && Owes(held - {last.ref, last.chars}, base, servers[..|servers| - 1])
  }

  /** Giving back the first server leaves exactly the rest owed. */
  lemma {:induction false} OwesHead(held: set<Resource>, base: set<Resource>, servers: seq<Server>)
    requires Owes(held, base, servers) && servers != []
    ensures servers[0].ref in held && servers[0].chars in held
    ensures Owes(held - {servers[0].chars} - {servers[0].ref}, base, servers[1..])
    decreases |servers|
  {
    var n, first := |servers| - 1, servers[0];
    var last := servers[n];
    if n == 0 {
      assert held - {first.chars} - {first.ref} == held - {first.ref, first.chars};
    } else {
      var inner := held - {last.ref, last.chars};
      OwesHead(inner, base, servers[..n]);
      assert servers[..n][1..] == servers[1..][..n - 1] && servers[1..][n - 1] == last;
      assert inner - {first.chars} - {first.ref} == held - {first.chars} - {first.ref} - {last.ref, last.chars};
    }
  }

  lemma OwesNone(held: set<Resource>)
    ensures Owes(held, held, [])
  {
  }

  lemma OwesMore(held: set<Resource>, base: set<Resource>, servers: seq<Server>, s: Server)
    requires Owes(held, base, servers) && Matched(s) && s.ref !in held && s.chars !in held
    ensures Owes(held + {s.ref} + {s.chars}, base, servers + [s])
  {
    assert (servers + [s])[..|servers|] == servers;
    assert held + {s.ref} + {s.chars} - {s.ref, s.chars} == held;
  }

  ghost predicate Stored(strings: array<Slot>, chars: array<Slot>, servers: seq<Server>)
    reads strings, chars
  {
    && |servers| <= strings.Length == chars.Length
    && forall j :: 0 <= j < |servers| ==>
         strings[j] == Written(Some(servers[j].ref)) && chars[j] == Written(Some(servers[j].chars))
  }

  /** Each server was borrowed from the array element at its position. */
  ghost predicate Borrowed(elements: seq<Option<string>>, servers: seq<Server>) {
    && |servers| <= |elements|
    && forall j :: 0 <= j < |servers| ==> servers[j].ref.LocalRef? && elements[j] == Some(servers[j].ref.text)
  }

  /** The release loop: reads only written slots, and returns every loan once. */
  method ReleaseServers(env: Env, strings: array<Slot>, chars: array<Slot>, n: nat,
                        ghost base: set<Resource>, ghost servers: seq<Server>)
    requires env.Valid() && n == |servers| && Stored(strings, chars, servers) && Owes(env.held, base, servers)
    modifies env
    ensures env.Valid() && env.held == base && env.next == old(env.next)
    ensures env.mallocs == old(env.mallocs) && env.failures == old(env.failures)
  {
    for j := 0 to n
      invariant env.Valid() && env.next == old(env.next)
      invariant env.mallocs == old(env.mallocs) && env.failures == old(env.failures)
      invariant Owes(env.held, base, servers[j..])
    {
      OwesHead(env.held, base, servers[j..]);
      assert servers[j..][1..] == servers[j + 1..] && servers[j] in servers[j..];
      if chars[j].pointer.Some? {
        env.ReleaseStringUTFChars(strings[j].pointer.value, chars[j].pointer.value);
      }
      env.DeleteLocalRef(strings[j].pointer.value);
    }
  }

  // ---- rtcCreatePeerConnection ---------------------------------------------------------

  /** What the native library is shown during the call. */
  datatype Config = Config(iceServers: seq<string>, proxyServer: Option<string>, bindAddress: Option<string>)

  datatype Failure =
    | MallocFailed | ServerStringMissing | ServerCharsFailed
    | FirstCharsFailed | SecondCharsFailed | SdpMissing

  datatype Outcome = Threw(failure: Failure) | Returned(result: int, sent: Config)

  function Texts(elements: seq<Option<string>>): seq<string>
    requires forall e :: e in elements ==> e.Some?
  {
    seq(|elements|, i requires 0 <= i < |elements| => assert elements[i] in elements; elements[i].value)
  }

  ghost predicate AllPresent(elements: seq<Option<string>>) { forall e :: e in elements ==> e.Some? }

  function TextOf(r: Option<Resource>): Option<string>
    requires r.Some? ==> r.value.LocalRef? || r.value.Chars?
  {
    if r.Some? then Some(r.value.text) else None
  }

  /** The library's own function: what it is shown, and the answer it gives. */
  method RtcCreatePeerConnection(env: Env, servers: seq<Resource>, proxy: Option<Resource>, bind: Option<Resource>,
                                 answer: int)
    returns (result: int, sent: Config)
    requires forall s :: s in servers ==> s.Chars? && s in env.held
    requires proxy.Some? ==> proxy.value.Chars? && proxy.value in env.held
    requires bind.Some? ==> bind.value.Chars? && bind.value in env.held
    ensures |sent.iceServers| == |servers| && forall i :: 0 <= i < |servers| ==> sent.iceServers[i] == servers[i].text
    ensures sent.proxyServer == (if proxy.Some? then Some(proxy.value.text) else None)
    ensures sent.bindAddress == (if bind.Some? then Some(bind.value.text) else None)
    ensures result == answer
  {
    result := answer;
    sent := Config(seq(|servers|, i requires 0 <= i < |servers| => servers[i].text), TextOf(proxy), TextOf(bind));
  }

  /** The strings of the server array, with their characters, or the failure that undid the loans. */
  method BorrowServers(env: Env, elements: seq<Option<string>>, strings: array<Slot>, chars: array<Slot>)
    returns (failure: Option<Failure>, ghost servers: seq<Server>)
    requires env.Valid() && strings.Length == chars.Length == |elements| && strings != chars
    modifies env, strings, chars
    ensures env.Valid() && env.next >= old(env.next) && env.mallocs == old(env.mallocs)
    ensures failure.Some? ==> env.held == old(env.held) && env.failures > old(env.failures)
    ensures failure.None? ==>
              && env.failures == old(env.failures) && |servers| == |elements|
              && Stored(strings, chars, servers) && Owes(env.held, old(env.held), servers)
              && Borrowed(elements, servers)
  {
    hide Owes;
    servers := [];
    OwesNone(env.held);
    for i := 0 to |elements|
      invariant env.Valid() && env.next >= old(env.next) && env.mallocs == old(env.mallocs)
      invariant |servers| == i && Stored(strings, chars, servers) && Owes(env.held, old(env.held), servers)
      invariant Borrowed(elements, servers) && env.failures == old(env.failures)
    {
      ghost var before := env.held;
      var ref := env.GetObjectArrayElement(elements, i);
      strings[i] := Written(ref);
      if ref == None {
        ReleaseServers(env, strings, chars, i, old(env.held), servers);
        return Some(ServerStringMissing), servers;
      }
      var utf := env.GetStringUTFChars(ref.value);
      chars[i] := Written(utf);
      if utf == None {
        OwesFrame(before, old(env.held), servers, ref.value);
        ReleaseServers(env, strings, chars, i, old(env.held) + {ref.value}, servers);
        env.DeleteLocalRef(strings[i].pointer.value);
        OwesBase(before, old(env.held), servers);
        assert env.held == old(env.held);
        return Some(ServerCharsFailed), servers;
      }
      OwesMore(before, old(env.held), servers, Server(ref.value, utf.value));
      servers := servers + [Server(ref.value, utf.value)];
    }
    failure := None;
  }

  lemma {:induction false} OwesFrame(held: set<Resource>, base: set<Resource>, servers: seq<Server>, extra: Resource)
    requires Owes(held, base, servers) && extra !in held
    ensures Owes(held + {extra}, base + {extra}, servers)
    decreases |servers|
  {
    if servers != [] {
      var last := servers[|servers| - 1];
      OwesFrame(held - {last.ref, last.chars}, base, servers[..|servers| - 1], extra);
      assert held + {extra} - {last.ref, last.chars} == held - {last.ref, last.chars} + {extra};
    }
  }

  lemma {:induction false} OwesBase(held: set<Resource>, base: set<Resource>, servers: seq<Server>)
    requires Owes(held, base, servers)
    ensures base <= held
    decreases |servers|
  {
    if servers != [] {
      var last := servers[|servers| - 1];
      OwesBase(held - {last.ref, last.chars}, base, servers[..|servers| - 1]);
    }
  }

  lemma {:induction false} OwesLoans(held: set<Resource>, base: set<Resource>, servers: seq<Server>)
    requires Owes(held, base, servers)
    ensures forall s :: s in servers ==> s.ref in held && s.chars in held
    decreases |servers|
  {
    if servers != [] {
      var last := servers[|servers| - 1];
      OwesLoans(held - {last.ref, last.chars}, base, servers[..|servers| - 1]);
      assert servers == servers[..|servers| - 1] + [last];
    }
  }

  /** Gives back the servers and both blocks, if there are any: the block repeated on the later exits. */
  method ReleaseAll(env: Env, strings: array<Slot>, chars: array<Slot>, count: nat, pointers: Option<Resource>,
                    references: Option<Resource>, ghost base: set<Resource>, ghost servers: seq<Server>)
    requires env.Valid() && count == |servers|
    requires Stored(strings, chars, servers) && Allotted(pointers, references, count)
    requires Owes(env.held, base, servers) && BlocksOf(pointers, references) <= base
    modifies env
    ensures env.Valid() && env.held == base - BlocksOf(pointers, references)
    ensures env.mallocs == old(env.mallocs) && env.failures == old(env.failures)
  {
    if pointers.Some? && count > 0 {
      ReleaseServers(env, strings, chars, count, base, servers);
      env.Free(pointers);
      env.Free(references);
    }
  }

  /** Both blocks exist when there are servers, and neither does otherwise. */
  ghost predicate Allotted(pointers: Option<Resource>, references: Option<Resource>, count: nat) {
    if count == 0 then pointers == None && references == None
    else pointers.Some? && references.Some? && pointers.value.Block? && references.value.Block?
         && pointers.value.id != references.value.id
  }

  ghost function BlocksOf(pointers: Option<Resource>, references: Option<Resource>): set<Resource> {
    (if pointers.Some? then {pointers.value} else {}) + (if references.Some? then {references.value} else {})
  }

  /** The two blocks and the borrowed strings, or nothing at all. */
  method OpenServers(env: Env, elements: seq<Option<string>>)
    returns (failure: Option<Failure>, pointers: Option<Resource>, references: Option<Resource>,
             strings: array<Slot>, chars: array<Slot>, ghost servers: seq<Server>)
    requires env.Valid()
    modifies env
    ensures env.Valid() && env.next >= old(env.next)
    ensures elements == [] ==> env.mallocs == old(env.mallocs)
    ensures failure.Some? ==> env.held == old(env.held) && env.failures > old(env.failures)
    ensures failure.None? ==>
              && env.failures == old(env.failures) && |servers| == |elements|
              && Borrowed(elements, servers) && Stored(strings, chars, servers)
              && Allotted(pointers, references, |elements|) && old(env.held) !! BlocksOf(pointers, references)
              && Owes(env.held, old(env.held) + BlocksOf(pointers, references), servers)
  {
    var count := |elements|;
    strings, chars := new Slot[count](_ => Unwritten), new Slot[count](_ => Unwritten);
    pointers, references, servers, failure := None, None, [], None;
    if count > 0 {
      pointers := env.Malloc();
      references := env.Malloc();
      if pointers == None || references == None {
        env.Free(pointers);
        env.Free(references);
        return Some(MallocFailed), pointers, references, strings, chars, servers;
      }
      assert env.held == old(env.held) + BlocksOf(pointers, references);
      failure, servers := BorrowServers(env, elements, strings, chars);
      if failure.Some? {
        env.Free(pointers);
        env.Free(references);
      }
    }
  }

  lemma TextsShown(elements: seq<Option<string>>, servers: seq<Server>, shown: seq<string>)
    requires Borrowed(elements, servers) && |servers| == |elements| == |shown|
    requires forall j :: 0 <= j < |servers| ==> Matched(servers[j]) && shown[j] == servers[j].chars.text
    ensures AllPresent(elements) && shown == Texts(elements)
  {
  }

  lemma OwesMatched(held: set<Resource>, base: set<Resource>, servers: seq<Server>)
    requires Owes(held, base, servers)
    ensures base <= held
    ensures forall j :: 0 <= j < |servers| ==> Matched(servers[j]) && servers[j].chars in held
  {
    OwesBase(held, base, servers);
    OwesLoans(held, base, servers);
    forall j | 0 <= j < |servers| ensures Matched(servers[j]) && servers[j].chars in held {
      assert servers[j] in servers;
    }
  }

  ghost function One(r: Option<Resource>): set<Resource> { if r.Some? then {r.value} else {} }

  /** `chars` was borrowed from `ref` on top of `base`, or both are missing. */
  ghost predicate Lent(base: set<Resource>, ref: Option<Resource>, chars: Option<Resource>) {
    && (ref.Some? <==> chars.Some?)
    && (ref.Some? ==>
          && ref.value.LocalRef? && ref.value in base && chars.value.Chars? && chars.value !in base
          && chars.value.ref == ref.value.id && chars.value.text == ref.value.text)
  }

  /** The characters of the two optional strings, or a failure that left nothing borrowed. */
  method OpenStrings(env: Env, first: Option<Resource>, second: Option<Resource>)
    returns (failure: Option<Failure>, firstChars: Option<Resource>, secondChars: Option<Resource>)
    requires env.Valid()
    requires first.Some? ==> first.value.LocalRef? && first.value in env.held
    requires second.Some? ==> second.value.LocalRef? && second.value in env.held
    modifies env
    ensures env.Valid() && env.mallocs == old(env.mallocs)
    ensures failure.Some? ==> env.held == old(env.held) && env.failures > old(env.failures)
    ensures failure.None? ==>
              && env.failures == old(env.failures) && env.held == old(env.held) + One(firstChars) + One(secondChars)
              && Lent(old(env.held), first, firstChars) && Lent(old(env.held), second, secondChars)
              && One(firstChars) !! One(secondChars)
  {
    firstChars, secondChars := None, None;
    if first.Some? {
      firstChars := env.GetStringUTFChars(first.value);
      if firstChars == None { return Some(FirstCharsFailed), firstChars, secondChars; }
    }
    if second.Some? {
      secondChars := env.GetStringUTFChars(second.value);
      if secondChars == None {
        if firstChars.Some? { env.ReleaseStringUTFChars(first.value, firstChars.value); }
        return Some(SecondCharsFailed), firstChars, secondChars;
      }
    }
    failure := None;
  }

  method CloseStrings(env: Env, first: Option<Resource>, second: Option<Resource>, firstChars: Option<Resource>,
                      secondChars: Option<Resource>, ghost base: set<Resource>)
    requires env.Valid() && env.held == base + One(firstChars) + One(secondChars)
    requires Lent(base, first, firstChars) && Lent(base, second, secondChars) && One(firstChars) !! One(secondChars)
    modifies env
    ensures env.Valid() && env.held == base && env.mallocs == old(env.mallocs) && env.failures == old(env.failures)
  {
    if firstChars.Some? { env.ReleaseStringUTFChars(first.value, firstChars.value); }
    if secondChars.Some? { env.ReleaseStringUTFChars(second.value, secondChars.value); }
  }

  /** The call itself, and the return of the two optional strings after it. */
  method CallLibrary(env: Env, chars: array<Slot>, count: nat,
                     proxyServer: Option<Resource>, bindAddress: Option<Resource>,
                     proxy: Option<Resource>, bind: Option<Resource>, answer: int,
                     ghost base: set<Resource>, ghost servers: seq<Server>)
    returns (result: int, sent: Config)
    requires env.Valid() && env.held == base + One(proxy) + One(bind)
    requires Lent(base, proxyServer, proxy) && Lent(base, bindAddress, bind) && One(proxy) !! One(bind)
    requires count == |servers| <= chars.Length
    requires forall j :: 0 <= j < count ==>
               && chars[j] == Written(Some(servers[j].chars)) && servers[j].chars.Chars? && servers[j].chars in base
    modifies env
    ensures env.Valid() && env.held == base && env.mallocs == old(env.mallocs) && env.failures == old(env.failures)
    ensures |sent.iceServers| == count && forall j :: 0 <= j < count ==> sent.iceServers[j] == servers[j].chars.text
    ensures sent.proxyServer == TextOf(proxyServer) && sent.bindAddress == TextOf(bindAddress) && result == answer
  {
    var shown := Shown(chars, count, servers);
    result, sent := RtcCreatePeerConnection(env, shown, proxy, bind, answer);
    CloseStrings(env, proxyServer, bindAddress, proxy, bind, base);
  }

  /**
   Every exit leaves the ledger as it was on entry; the call reaches the library exactly if nothing
   it asked for failed, and then shows it the array's strings in order and the two optional strings.
   Nothing is allocated for no servers.
   */
  method CreatePeerConnection(env: Env, iceServers: Option<seq<Option<string>>>, proxyServer: Option<Resource>,
                              bindAddress: Option<Resource>, answer: int)
    returns (r: Outcome)
    requires env.Valid()
    requires proxyServer.Some? ==> proxyServer.value.LocalRef? && proxyServer.value in env.held
    requires bindAddress.Some? ==> bindAddress.value.LocalRef? && bindAddress.value in env.held
    modifies env
    ensures env.Valid() && env.held == old(env.held)
    ensures r.Returned? <==> env.failures == old(env.failures)
    ensures r.Returned? && iceServers.Some? ==>
              AllPresent(iceServers.value) && r.sent.iceServers == Texts(iceServers.value)
    ensures r.Returned? && iceServers.None? ==> r.sent.iceServers == []
    ensures r.Returned? ==> r.sent.proxyServer == TextOf(proxyServer) && r.sent.bindAddress == TextOf(bindAddress)
    ensures r.Returned? ==> r.result == answer
    ensures iceServers == None || iceServers == Some([]) ==> env.mallocs == old(env.mallocs)
  {
    hide Owes, Texts, AllPresent;
    var elements := if iceServers.Some? then iceServers.value else [];
    var count := |elements|;
    var failure, pointers, references, strings, chars;
    ghost var servers;
    failure, pointers, references, strings, chars, servers := OpenServers(env, elements);
    if failure.Some? { return Threw(failure.value); }
    ghost var base := old(env.held) + BlocksOf(pointers, references);
    ghost var lent := env.held;
    OwesMatched(lent, base, servers);
    var proxy, bind;
    failure, proxy, bind := OpenStrings(env, proxyServer, bindAddress);
    if failure.Some? {
      ReleaseAll(env, strings, chars, count, pointers, references, base, servers);
      return Threw(failure.value);
    }
    var result, sent := CallLibrary(env, chars, count, proxyServer, bindAddress, proxy, bind, answer, lent, servers);
    TextsShown(elements, servers, sent.iceServers);
    ReleaseAll(env, strings, chars, count, pointers, references, base, servers);
    return Returned(result, sent);
  }

  /** The pointers in the C array handed to the library. */
  method Shown(chars: array<Slot>, count: nat, ghost servers: seq<Server>) returns (shown: seq<Resource>)
    requires count == |servers| <= chars.Length
    requires forall j :: 0 <= j < count ==> chars[j] == Written(Some(servers[j].chars))
    ensures |shown| == count && forall j :: 0 <= j < count ==> shown[j] == servers[j].chars
  {
    shown := [];
    for j := 0 to count
      invariant |shown| == j && forall k :: 0 <= k < j ==> shown[k] == servers[k].chars
    {
      shown := shown + [chars[j].pointer.value];
    }
  }

  // ---- Two strings at a time -----------------------------------------------------------

  /** What the library is shown by the calls that pass two optional strings, and what they return. */
  datatype TextCall = Aborted(failure: Failure) | Passed(result: int, first: Option<string>, second: Option<string>)

  /**
   The shape shared by adding a remote candidate (candidate, media id), creating a data channel (label,
   protocol) and, once its description is known to be there, setting a remote description.
   */
  method PassStrings(env: Env, first: Option<Resource>, second: Option<Resource>, answer: int) returns (r: TextCall)
    requires env.Valid()
    requires first.Some? ==> first.value.LocalRef? && first.value in env.held
    requires second.Some? ==> second.value.LocalRef? && second.value in env.held
    modifies env
    ensures env.Valid() && env.held == old(env.held) && env.mallocs == old(env.mallocs)
    ensures r.Passed? <==> env.failures == old(env.failures)
    ensures r.Passed? ==> r.first == TextOf(first) && r.second == TextOf(second) && r.result == answer
  {
    var failure, firstChars, secondChars := OpenStrings(env, first, second);
    if failure.Some? { return Aborted(failure.value); }
    r := Passed(answer, TextOf(firstChars), TextOf(secondChars));
    CloseStrings(env, first, second, firstChars, secondChars, old(env.held));
  }

  method SetRemoteDescription(env: Env, sdp: Option<Resource>, kind: Option<Resource>, answer: int)
    returns (r: TextCall)
    requires env.Valid()
    requires sdp.Some? ==> sdp.value.LocalRef? && sdp.value in env.held
    requires kind.Some? ==> kind.value.LocalRef? && kind.value in env.held
    modifies env
    ensures env.Valid() && env.held == old(env.held)
    ensures r.Passed? <==> sdp.Some? && env.failures == old(env.failures)
    ensures r.Passed? ==> r.first == TextOf(sdp) && r.second == TextOf(kind)
    ensures r.Passed? ==> r.result == if answer >= 0 then answer else -999
  {
    if sdp == None { return Aborted(SdpMissing); }
    r := PassStrings(env, sdp, kind, answer);
    if r.Passed? { r := r.(result := WrapError(r.result)); }
  }

  /** What Java's parser is shown, and the pair it makes of it. */
  datatype Pair = Pair(parsed: Resource, local: string, remote: string)

  /**
   Two buffers, which the library fills with the candidates of the selected pair; neither outlives the
   call. The parser sees the local candidate first.
   */
  method SelectedCandidatePair(env: Env, result: int, localText: string, remoteText: string)
    returns (pair: Option<Pair>)
    requires env.Valid()
    modifies env
    ensures env.Valid()
    ensures env.Gained(old(env.held), old(env.next), if pair.Some? then Some(pair.value.parsed) else None)
    ensures pair.Some? <==> result >= 0 && env.failures == old(env.failures)
    ensures pair.Some? ==> pair.value.local == localText && pair.value.remote == remoteText
  {
    var local := env.Malloc();
    if local == None { return None; }
    var remote := env.Malloc();
    if remote == None {
      env.Free(local);
      return None;
    }
    if result < 0 {
      env.Free(local);
      env.Free(remote);
      return None;
    }
    var candidatePair := env.NewRef("CandidatePair");
    env.Free(local);
    env.Free(remote);
    if candidatePair == None { return None; }
    return Some(Pair(candidatePair.value, localText, remoteText));
  }

  // ---- Callback records ----------------------------------------------------------------

  datatype Callback = Callback(block: Resource, instance: Resource)

  ghost predicate Owned(held: set<Resource>, base: set<Resource>, c: Callback) {
    && c.block.Block? && c.instance.GlobalRef?
    && c.block !in base && c.instance !in base && held == base + {c.block} + {c.instance}
  }

  /** A record with a global reference in it, or nothing. */
  method AllocateCallback(env: Env) returns (c: Option<Callback>)
    requires env.Valid()
    modifies env
    ensures env.Valid() && (c.Some? <==> env.failures == old(env.failures)) && env.failures >= old(env.failures)
    ensures env.mallocs == old(env.mallocs) + 1
    ensures if c.Some? then Owned(env.held, old(env.held), c.value) else env.held == old(env.held)
  {
    var cb := env.Malloc();
    if cb == None { return None; }
    var instance := env.NewGlobalRef();
    if instance == None {
      env.Free(cb);
      return None;
    }
    return Some(Callback(cb.value, instance.value));
  }

  /** Freeing a record undoes its allocation. */
  method FreeCallback(env: Env, c: Callback, ghost base: set<Resource>)
    requires env.Valid() && Owned(env.held, base, c)
    modifies env
    ensures env.Valid() && env.held == base && env.failures == old(env.failures)
  {
    env.DeleteGlobalRef(c.instance);
    env.Free(Some(c.block));
  }

  // ---- Two-call transfers --------------------------------------------------------------

  const EXCEPTION_THROWN := -999
  const ERR_NOT_AVAIL := -3

  /** Results pass through, error codes become a pending Java exception. */
  function WrapError(result: int): int { if result >= 0 then result else EXCEPTION_THROWN }

  /**
   A native string fetched by asking for its size and then for its bytes. `size` and `filled` are
   the library's answers. The buffer never outlives the call; the string is all that remains.
   */
  method GetDynamicString(env: Env, size: int, filled: int, text: string) returns (r: Option<Resource>)
    requires env.Valid()
    modifies env
    ensures env.Valid() && env.Gained(old(env.held), old(env.next), r)
    ensures r.Some? ==> r.value.LocalRef? && r.value.text == text
    ensures r.Some? <==> size > 0 && filled >= 0 && env.failures == old(env.failures)
    ensures size <= 0 ==> env.mallocs == old(env.mallocs)
  {
    var wanted := WrapError(size);
    if wanted == EXCEPTION_THROWN || wanted <= 0 { return None; }
    var memory := env.Malloc();
    if memory == None { return None; }
    if WrapError(filled) == EXCEPTION_THROWN {
      env.Free(memory);
      return None;
    }
    r := env.NewRef(text);
    env.Free(memory);
  }

  /** What the caller of `rtcReceiveMessage` gets; `pending` says that a Java exception was raised. */
  datatype Received = Received(buffer: Option<Resource>, pending: bool)

  /**
   A message fetched into a buffer the Java allocator supplies. `probed` and `size` answer the first
   call, `direct` says whether the buffer has an address, and `result` answers the second call.
   The buffer is handed on only with a message in it; otherwise its reference is dropped.
   */
  method ReceiveMessage(env: Env, probed: int, size: int, direct: bool, result: int) returns (r: Received)
    requires env.Valid()
    modifies env
    ensures env.Valid() && env.Gained(old(env.held), old(env.next), r.buffer)
    ensures r.buffer.Some? <==> size != 0 && direct && result >= 0 && env.failures == old(env.failures)
    ensures probed < 0 ==> r.pending
    ensures env.failures == old(env.failures) ==>
              (r.pending <==> probed < 0 || (size != 0 && (!direct || (result < 0 && result != -3))))
  {
    var pending := WrapError(probed) == EXCEPTION_THROWN;
    if size == 0 { return Received(None, pending); }
    var byteBuffer := env.NewRef("buffer");
    if byteBuffer == None { return Received(None, pending); }
    if !direct {
      env.DeleteLocalRef(byteBuffer.value);
      return Received(None, true);
    }
    if result == ERR_NOT_AVAIL {
      env.DeleteLocalRef(byteBuffer.value);
      return Received(None, pending);
    }
    if result < 0 {
      env.DeleteLocalRef(byteBuffer.value);
      return Received(None, true);
    }
    return Received(byteBuffer, pending);
  }

  // ---- From the Java side --------------------------------------------------------------

  /** The URI strings by position; no array for no list and for an empty one. */
  method IceUrisToStrings(uris: Option<seq<string>>) returns (strings: array?<string>)
    ensures strings == null <==> uris == None || uris == Some([])
    ensures strings != null ==> fresh(strings) && strings[..] == uris.value
  {
    if uris == None || |uris.value| == 0 { return null; }
    var index := 0;
    var all := new string[|uris.value|](_ => "");
    for k := 0 to |uris.value|
      invariant index == k && all[..k] == uris.value[..k]
    {
      all[index] := uris.value[k];
      index := index + 1;
    }
    return all;
  }

  /**
   How creating a peer ends: the native call was not reached, it returned an error code that becomes an
   exception, the listener could not be set up for the new peer, or there is a peer with its record.
   */
  datatype Creation =
    | NotReached(failure: Failure)
    | ErrorCode(code: int, sent: Config)
    | WithoutListener(handle: int, sent: Config)
    | Created(handle: int, sent: Config, callback: Callback)

  /**
   The library is shown the configured ICE servers in iteration order. All that is kept is the record of
   a created peer, and there is one exactly if nothing failed and the library's `answer` is a handle.
   */
  method CreatePeer(env: Env, uris: Option<seq<string>>, proxyServer: Option<Resource>, bindAddress: Option<Resource>,
                    answer: int)
    returns (r: Creation)
    requires env.Valid()
    requires proxyServer.Some? ==> proxyServer.value.LocalRef? && proxyServer.value in env.held
    requires bindAddress.Some? ==> bindAddress.value.LocalRef? && bindAddress.value in env.held
    modifies env
    ensures env.Valid()
    ensures if r.Created? then Owned(env.held, old(env.held), r.callback) else env.held == old(env.held)
    ensures r.Created? || r.ErrorCode? <==> env.failures == old(env.failures)
    ensures r.ErrorCode? ==> r.code == answer < 0
    ensures r.Created? || r.WithoutListener? ==> r.handle == answer >= 0
    ensures !r.NotReached? ==> r.sent.iceServers == (if uris.Some? then uris.value else [])
    ensures !r.NotReached? ==> r.sent.proxyServer == TextOf(proxyServer) && r.sent.bindAddress == TextOf(bindAddress)
    ensures uris == None || uris == Some([]) ==> env.mallocs <= old(env.mallocs) + 1
  {
    hide Texts, AllPresent;
    var strings := IceUrisToStrings(uris);
    var elements := if strings == null then None else Some(Present(strings[..]));
    if uris.Some? { PresentTexts(uris.value); }
    var call := CreatePeerConnection(env, elements, proxyServer, bindAddress, answer);
    if call.Threw? { return NotReached(call.failure); }
    if call.result < 0 { return ErrorCode(call.result, call.sent); }
    var callback := AllocateCallback(env);
    if callback == None { return WithoutListener(call.result, call.sent); }
    return Created(call.result, call.sent, callback.value);
  }

  function Present(strings: seq<string>): (elements: seq<Option<string>>)
    ensures |elements| == |strings| && forall i :: 0 <= i < |strings| ==> elements[i] == Some(strings[i])
  {
    seq(|strings|, i requires 0 <= i < |strings| => Some(strings[i]))
  }

  lemma PresentTexts(strings: seq<string>)
    ensures AllPresent(Present(strings)) && Texts(Present(strings)) == strings
  {
  }
}
