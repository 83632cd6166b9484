/** The driver's persistent error message: `_ErrSetString`, `_ErrAddString` and `_ErrGetString`
    on the buffer `g_errstr` and the counter `g_errstr_number`. */
module ErrPut {
  import opened Numbers
  import opened Printing
  import opened Format
  import opened FormatProofs
  import opened Interpreter

  const CAPACITY: nat := 256

  class ErrString {
    const errstr: array<char>
    var number: nat

    constructor ()
      ensures Valid() && Message() == "" && fresh(errstr)
    {
      errstr := new char[CAPACITY](_ => '\0');
      number := 0;
    }

    /** The buffer holds a C string whose length is the counter. */
    ghost predicate Valid()
      reads this, errstr
    {
      && errstr.Length == CAPACITY && number < CAPACITY
      && errstr[number] == '\0' && '\0' !in errstr[..number]
    }

    ghost function Message(): string
      requires Valid()
      reads this, errstr
    {
      errstr[..number]
    }

    /** `_ErrSetString`: the result points to the start of the message. */
    method Set(f: cstring, args: seq<Arg>) returns (p: nat)
      requires errstr.Length == CAPACITY
      requires Render(f, 0, args).Rendered? && |Render(f, 0, args).text| < CAPACITY
      modifies this, errstr
      ensures Valid() && Message() == Render(f, 0, args).text && p == 0
    {
      var a := new Cursor(errstr, 0);
      RenderingIsCString(f, 0, args);
      number := Print(a, f, args);
      assert errstr[..number] == Render(f, 0, args).text;
      return 0;
    }

    /** `_ErrAddString`: the result points to the end of the message. */
    method Add(f: cstring, args: seq<Arg>) returns (p: nat)
      requires Valid()
      requires Render(f, 0, args).Rendered? && |Message()| + |Render(f, 0, args).text| < CAPACITY
      modifies this, errstr
      ensures Valid() && Message() == old(Message()) + Render(f, 0, args).text && p == |Message()|
    {
      var a := new Cursor(errstr, number);
      RenderingIsCString(f, 0, args);
      var n := Print(a, f, args);
      ghost var text := Render(f, 0, args).text;
      assert errstr[..number + n] == old(errstr[..number]) + text;
      number := number + n;
      return number;
    }

    /** `_ErrGetString`, read as the C string that it points to. */
    method Get() returns (s: string)
      requires Valid()
      ensures s == Message()
    {
      var n := 0;
      assert forall i | 0 <= i < number :: errstr[i] == errstr[..number][i];
      while errstr[n] != '\0'
        invariant n <= number
        decreases number - n
      {
        n := n + 1;
      }
      return errstr[..n];
    }
  }

  // ---------- runs of calls ----------

  datatype Call = SetCall(f: cstring, args: seq<Arg>) | AddCall(f: cstring, args: seq<Arg>)

  ghost predicate Renders(call: Call) {
    Render(call.f, 0, call.args).Rendered?
  }

  function Text(call: Call): string
    requires Renders(call)
  {
    Render(call.f, 0, call.args).text
  }

  /** The effect of one call on the message, as `Set` and `Add` state it. */
  function After(message: string, call: Call): string
    requires Renders(call)
  {
    if call.SetCall? then Text(call) else message + Text(call)
  }

  function AfterAll(message: string, calls: seq<Call>): string
    requires forall c | c in calls :: Renders(c)
  {
    if calls == [] then message else After(AfterAll(message, calls[..|calls| - 1]), calls[|calls| - 1])
  }

  function Formats(calls: seq<Call>): cstring {
    if calls == [] then "" else Formats(calls[..|calls| - 1]) + calls[|calls| - 1].f
  }

  function Arguments(calls: seq<Call>): seq<Arg> {
    if calls == [] then [] else Arguments(calls[..|calls| - 1]) + calls[|calls| - 1].args
  }

  /** The call uses all its arguments, and its format does not end with a lone '%'. */
  ghost predicate Whole(call: Call)
    requires Renders(call)
  {
    Render(call.f, 0, call.args).rest == [] && Closed(call.f, 0)
  }

  lemma {:induction false} ClosedAppend(f: cstring, g: cstring, i: nat)
    requires i <= |f| && Closed(f, i) && Closed(f + g, |f|)
    ensures Closed(f + g, i)
    decreases |f| - i
  {
    if i < |f| {
      if f[i] != '%' {
        ClosedAppend(f, g, i + 1);
      } else if f[i + 1] == '%' {
        ClosedAppend(f, g, i + 2);
      } else {
        SpecAppend(f, g, i + 1);
        ClosedAppend(f, g, SpecAt(f, i + 1).conv + 1);
      }
    }
  }

  lemma {:induction false} ClosedShift(h: cstring, n: nat, g: cstring, i: nat)
    requires EndsWith(h, n, g) && i <= |g| && n + i <= |h| && Closed(g, i)
    ensures Closed(h, n + i)
    decreases |g| - i
  {
    SameChar(h, n, g, i);
    if i < |g| {
      if g[i] != '%' {
        ClosedShift(h, n, g, i + 1);
      } else {
        SameChar(h, n, g, i + 1);
        if g[i + 1] == '%' {
          ClosedShift(h, n, g, i + 2);
        } else {
          SpecShift(h, n, g, i + 1);
          ClosedShift(h, n, g, SpecAt(g, i + 1).conv + 1);
        }
      }
    }
  }

  /** Setting the message and adding to it any number of times leaves what a single call with all the formats
      and all the arguments one after another would have printed. */
  lemma {:induction false} SetThenAddsIsOneRendering(message: string, calls: seq<Call>)
    requires calls != [] && calls[0].SetCall? && forall i | 0 < i < |calls| :: calls[i].AddCall?
    requires forall c | c in calls :: Renders(c) && Whole(c)
    ensures Render(Formats(calls), 0, Arguments(calls)) == Rendered(AfterAll(message, calls), [])
    ensures Closed(Formats(calls), 0)
  {
    var n := |calls| - 1;
    var init, last := calls[..n], calls[n];
    assert last in calls;
    CallsSnoc(message, init, last);
    assert init + [last] == calls;
    if n == 0 {
      assert init == [] && "" + last.f == last.f && [] + last.args == last.args;
    } else {
      SetThenAddsIsOneRendering(message, init);
      OneCallMore(Formats(init), Arguments(init), AfterAll(message, init), last);
    }
  }

  lemma CallsSnoc(message: string, calls: seq<Call>, call: Call)
    requires Renders(call) && forall c | c in calls :: Renders(c)
    ensures AfterAll(message, calls + [call]) == After(AfterAll(message, calls), call)
    ensures Formats(calls + [call]) == Formats(calls) + call.f
    ensures Arguments(calls + [call]) == Arguments(calls) + call.args
  {
    assert (calls + [call])[..|calls|] == calls;
  }

  lemma OneCallMore(f: cstring, args: seq<Arg>, text: string, call: Call)
    requires Closed(f, 0) && Render(f, 0, args) == Rendered(text, []) && Renders(call) && Whole(call)
    ensures Closed(f + call.f, 0)
    ensures Render(f + call.f, 0, args + call.args) == Rendered(text + Text(call), [])
  {
    ClosedBoth(f, call.f);
    ClosedFormatsCompose(f, args, call.f, call.args);
    assert [] + call.args == call.args;
  }

  lemma ClosedBoth(f: cstring, g: cstring)
    requires Closed(f, 0) && Closed(g, 0)
    ensures Closed(f + g, 0)
  {
    assert (f + g)[|f|..] == g;
    ClosedShift(f + g, |f|, g, 0);
    ClosedAppend(f, g, 0);
  }

  // ---------- the calls ----------

  /** After the first k calls the message fits the buffer with its terminator. */
  ghost predicate FitsAfter(message: string, calls: seq<Call>, k: nat)
    requires k <= |calls| && forall c | c in calls :: Renders(c)
  {
    assert forall c | c in calls[..k] :: c in calls;
    |AfterAll(message, calls[..k])| < CAPACITY
  }

  method Perform(e: ErrString, call: Call)
    requires e.Valid() && Renders(call) && |After(e.Message(), call)| < CAPACITY
    modifies e, e.errstr
    ensures e.Valid() && e.Message() == After(old(e.Message()), call)
  {
    if call.SetCall? {
      var p := e.Set(call.f, call.args);
    } else {
      var p := e.Add(call.f, call.args);
    }
  }

  /** Any sequence of calls on the object leaves the message that the calls add up to. If it is one Set and then Adds,
      each using all its arguments, that is what a single Set with all formats and all arguments would have left. */
  method PerformAll(e: ErrString, calls: seq<Call>)
    requires e.Valid() && forall c | c in calls :: Renders(c)
    requires forall k | 0 <= k <= |calls| :: FitsAfter(e.Message(), calls, k)
    modifies e, e.errstr
    ensures e.Valid() && e.Message() == AfterAll(old(e.Message()), calls)
    ensures
      && calls != [] && calls[0].SetCall? && (forall i | 0 < i < |calls| :: calls[i].AddCall?)
      && (forall c | c in calls :: Whole(c))
      ==> Render(Formats(calls), 0, Arguments(calls)) == Rendered(e.Message(), [])
  {
    ghost var message := e.Message();
    for i := 0 to |calls|
      invariant e.Valid() && e.Message() == AfterAll(message, calls[..i])
    {
      assert FitsAfter(message, calls, i + 1) && calls[i] in calls;
      assert calls[..i + 1][..i] == calls[..i];
      Perform(e, calls[i]);
    }
    assert calls[..|calls|] == calls;
    if calls != [] && calls[0].SetCall? && (forall i | 0 < i < |calls| :: calls[i].AddCall?)
       && (forall c | c in calls :: Whole(c)) {
      SetThenAddsIsOneRendering(message, calls);
    }
  }
}
