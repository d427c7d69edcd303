/**
 * The EDNS options of a transfer: those of the messages up to the one that brings the opening SOA.
 */
module TransferOptions {
  import opened Serials
  import opened Records
  import opened TransferParser
  import opened MessageCuts
  import opened TransferContent
  import opened FullTransfers
  import opened IncrementalTransfers

  /** The later EXPIRE value counts, and one message is enough to say that the primary knows the extension. */
  function With(o: Options, m: Message): Options {
    Options(if m.expireOption.Some? then m.expireOption else o.expire, o.extended || m.extended)
  }

  /** The options after these messages, when `read` was read before them. */
  function OptionsAfter(o: Options, read: seq<Item>, msgs: seq<Message>): Options
    decreases |msgs|
  {
    if msgs == [] || SoaSerials(read) != [] then o
    else OptionsAfter(With(o, msgs[0]), read + msgs[0].items, msgs[1..])
  }

  lemma {:induction false} SerialsStay(a: seq<Item>, b: seq<Item>)
    ensures SoaSerials(a) <= SoaSerials(a + b)
    decreases |b|
  {
    if b == [] {
      assert a + b == a;
    } else {
      SerialsStay(a, b[..|b| - 1]);
      assert (a + b)[..|a + b| - 1] == a + b[..|b| - 1];
    }
  }

  lemma {:induction false} ParseKeepsOptions(env: Env, s: State, items: seq<Item>, i: nat)
    requires i <= |items|
    ensures ParseFrom(env, s, items, i).0.options == s.options
    decreases |items| - i
  {
    if i < |items| {
      ParseOne(env, s, items, i);
      ParseKeepsOptions(env, Step(env, s, items[i], |items| == 1, i == |items| - 1).0, items, i + 1);
    }
  }

  /** Only the opening SOA says that we are up to date. */
  lemma {:induction false} StopOpens(env: Env, s: State, before: seq<Item>, item: Item, only: bool, last: bool)
    requires On(env, s, before) && Step(env, s, item, only, last).1 == Stop
    ensures SoaSerials(before + [item]) != []
  {
    OneSerialMore(before, item);
  }

  /** A transfer is not over before its opening SOA. */
  lemma {:induction false} EndIsOpened(env: Env, s: State, items: seq<Item>, i: nat, before: seq<Item>)
    requires On(env, s, before) && i <= |items|
    ensures var (t, ok) := ParseFrom(env, s, items, i); ok && t.finished ==> SoaSerials(before + items[i..]) != []
    decreases |items| - i
  {
    if i == |items| {
      assert before + items[i..] == before;
    } else {
      var only, last := |items| == 1, i == |items| - 1;
      var (t, v) := Step(env, s, items[i], only, last);
      assert GoesOn(env, (t, v), before + [items[i]]) by { StepGoesOn(env, s, before, items[i], only, last); }
      ParseOne(env, s, items, i);
      OneOn(before, items, i);
      if v == Next {
        EndIsOpened(env, t, items, i + 1, before + [items[i]]);
      } else if v == Stop {
        StopOpens(env, s, before, items[i], only, last);
        SerialsStay(before + [items[i]], items[i + 1..]);
      }
    }
  }

  lemma {:induction false} StreamOptions(env: Env, s: State, msgs: seq<Message>, read: seq<Item>)
    requires On(env, s, read) && !s.finished
    ensures var (t, ok) := ParseStream(env, s, msgs); ok ==> t.options == OptionsAfter(s.options, read, msgs)
    decreases |msgs|
  {
    if msgs != [] {
      var m := msgs[0];
      var u := ReadOptions(s, m);
      assert On(env, u, read) && m.items[0..] == m.items;
      MessageGoesOn(env, u, m.items, 0, read);
      EndIsOpened(env, u, m.items, 0, read);
      ParseKeepsOptions(env, u, m.items, 0);
      SerialsStay(read, m.items);
      var (t, ok) := ParseMessage(env, s, m);
      if ok && !t.finished { StreamOptions(env, t, msgs[1..], read + m.items); }
    }
  }

  /** For every stream that is taken, or that says we are up to date. */
  lemma {:induction false} OptionsOfTransfer(env: Env, ixfr: bool, msgs: seq<Message>)
    requires ParseStream(env, Start(ixfr), msgs).1
    ensures ParseStream(env, Start(ixfr), msgs).0.options == OptionsAfter(Options(None, false), [], msgs)
  {
    StreamOptions(env, Start(ixfr), msgs, []);
  }
}
