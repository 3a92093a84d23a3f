/**
 CodedError and its immutability (core/internal/apperror/apperror.go, response.go).

 An error never updates its own fields, but its details are a map on the heap, and Wrap makes two
 errors share that map.  `World` is one program using errors and redacted log fields: it can keep, follow
 and overwrite every map and slice it ever passed in or got back.
 */
module AppError {
  import opened Wrappers
  import opened DenyList
  import opened ErrorCodes
  import opened JsonTree
  import opened JsonHeap
  import opened PanicValues

  class CodedError {
    const code: string
    const message: string
    const details: Any
    const cause: Option<PanicValue>
    /** What the details spelled out when the error was made, and the objects they consist of. */
    ghost const tree: Tree
    ghost const Repr: set<object>

    ghost predicate Valid()
      reads Repr
    {
      && (details.NilMap? || details.MapRef?)
      && Rep(details, tree, Repr)
      && NoNilArr(tree)
    }

    /** New. */
    constructor (code: string, message: string)
      ensures this.code == code && this.message == message && cause == None
      ensures Valid() && tree == NilObj && Repr == {}
    {
      this.code, this.message, this.cause := code, message, None;
      details := NilMap;
      tree, Repr := NilObj, {};
    }

    constructor Copy(code: string, message: string, details: Any, cause: Option<PanicValue>,
                     ghost tree: Tree, ghost Repr: set<object>)
      ensures this.code == code && this.message == message && this.details == details && this.cause == cause
      ensures this.tree == tree && this.Repr == Repr
    {
      this.code, this.message, this.details, this.cause := code, message, details, cause;
      this.tree, this.Repr := tree, Repr;
    }

    /** Error, or the panic of printing the cause. */
    function Error(): (r: Result<string, PanicValue>)
      ensures cause.None? ==> r.Ok?
      ensures r.Ok? ==> code <= r.value && code + ": " + message <= r.value
      ensures r.Ok? && cause.None? ==> |r.value| == |code| + 2 + |message|
      ensures cause.Some? && cause.value.Printable? ==>
                r.Ok? && r.value[|code| + 2 + |message|..] == ": " + cause.value.text
    {
      match cause
      case None => Ok(code + ": " + message)
      case Some(c) =>
        match Formatted(c)
        case Ok(text) => Ok(code + ": " + message + ": " + text)
        case Err(raised) => Err(raised)
    }

    /** WithDetails: a new error around a copy of the given map. */
    method WithDetails(v: Any, ghost t: Tree, ghost fp: set<object>) returns (e: CodedError)
      requires v.NilMap? || v.MapRef?
      requires Rep(v, t, fp)
      ensures fresh(e) && fresh(e.Repr) && e.Valid()
      ensures e.tree == Clone(t)
      ensures e.code == code && e.message == message && e.cause == cause
    {
      var copied, made := CloneDetails(v, t, fp);
      CloneHasNoNilArr(t);
      e := new CodedError.Copy(code, message, copied, cause, Clone(t), made);
    }

    /** Wrap: a new error that shares the details of this one. */
    method Wrap(cause: PanicValue) returns (e: CodedError)
      requires Valid()
      ensures fresh(e) && e.Valid()
      ensures e.details == details && e.tree == tree && e.Repr == Repr
      ensures e.code == code && e.message == message && e.cause == Some(cause)
    {
      e := new CodedError.Copy(code, message, details, Some(cause), tree, Repr);
    }

    /** Details: a copy, made of new objects, that spells out exactly what the error holds. */
    method Details() returns (r: Any, ghost made: set<object>)
      requires Valid()
      ensures r.NilMap? || r.MapRef?
      ensures fresh(made) && Closed(made)
      ensures Rep(r, tree, made)
    {
      CloneIsExact(tree);
      r, made := CloneDetails(details, tree, Repr);
    }
  }

  /** The text of the nil dereference in Error. */
  const NIL_DEREFERENCE := "runtime error: invalid memory address or nil pointer dereference"

  /** A *CodedError as the value of a panic: for nil, Error panics in turn. */
  function PanicWith(e: CodedError?): PanicValue {
    if e == null then Failing(true, true, Printable(NIL_DEREFERENCE))
    else
      match e.Error()
      case Ok(text) => Printable(text)
      case Err(raised) => Failing(true, false, raised)
  }

  datatype Response = Response(code: string, message: string, details: Any, requestId: string)

  /** ToResponse, with the fixed internal error for nil. */
  method ToResponse(e: CodedError?, requestId: string) returns (r: Response, ghost made: set<object>)
    requires e != null ==> e.Valid()
    ensures fresh(made) && Closed(made)
    ensures e == null ==> r == Response(INTERNAL_ERROR, INTERNAL_ERROR_MESSAGE, NilMap, requestId)
    ensures e != null ==> r.code == e.code && r.message == e.message && r.requestId == requestId
    ensures Rep(r.details, if e == null then NilObj else e.tree, made)
  {
    if e == null {
      return Response(INTERNAL_ERROR, INTERNAL_ERROR_MESSAGE, NilMap, requestId), {};
    }
    CloneIsExact(e.tree);
    var details;
    details, made := CloneDetails(e.details, e.tree, e.Repr);
    r := Response(e.code, e.message, details, requestId);
  }

  // ---------------------------------------------------------------- programs that use errors

  /** A redacted map that the log holds on to. */
  class LogField {
    const value: Any
    ghost const tree: Tree
    ghost const Repr: set<object>

    ghost predicate Valid()
      reads Repr
    {
      (value.NilMap? || value.MapRef?) && Rep(value, tree, Repr)
    }

    constructor (value: Any, ghost tree: Tree, ghost Repr: set<object>)
      ensures this.value == value && this.tree == tree && this.Repr == Repr
    {
      this.value, this.tree, this.Repr := value, tree, Repr;
    }
  }

  /**
   One step of a program.  Errors, log fields and values are named by their place in the lists of
   everything the program holds.  `tree` is what the passed map spells out at that moment; every acyclic
   map has one (`AcyclicMapsCanBePassed`).
   */
  datatype Step =
    | MakeError(code: string, message: string)
    | AddDetails(err: nat, value: nat, tree: Tree)
    | WrapError(err: nat, cause: PanicValue)
    | ReadDetails(err: nat)
    | Respond(err: nat, requestId: string)
    | LogRedacted(value: nat, tree: Tree)
    | ShowRedacted(field: nat)
    | MakePlain(scalar: Scalar)
    | MakeMap
    | MakeSlice(length: nat)
    | StoreKey(target: nat, key: string, value: nat)
    | DropKey(target: nat, key: string)
    | StoreItem(target: nat, index: nat, value: nat)
    | LoadKey(source: nat, key: string)
    | LoadItem(source: nat, index: nat)
    | WriteCell(cell: nat, text: string)

  class World {
    const lower: Lower
    var errs: seq<CodedError>
    var fields: seq<LogField>
    var values: seq<Any>
    /** The memory behind Shared values, which no copy duplicates. */
    var cells: Cells
    ghost var owned: set<object>

    constructor (lower: Lower)
      ensures Inv() && errs == [] && fields == [] && values == [] && owned == {}
    {
      this.lower := lower;
      errs, fields, values, cells, owned := [], [], [], map[], {};
    }

    /** The program's own objects are closed under references and are no part of any error or log field. */
    ghost predicate Inv()
      reads this, owned, set e, o | e in errs && o in e.Repr :: o, set f, o | f in fields && o in f.Repr :: o
    {
      && this !in owned
      && Closed(owned)
      && (forall i | 0 <= i < |values| :: Known(values[i], owned))
      && (forall e | e in errs :: e.Valid() && e.Repr !! owned && this !in e.Repr)
      && (forall f | f in fields :: f.Valid() && f.Repr !! owned && this !in f.Repr)
    }

    /** A value of the program that is acyclic spells out a tree, so a step can pass it. */
    lemma AcyclicMapsCanBePassed(i: nat)
      requires Inv() && i < |values|
      ensures Acyclic(values[i], owned) <==> exists t :: Spells(values[i], t)
    {
      TreeExistsIffAcyclic(values[i], owned);
      if HasTree(values[i], owned) {
        var t :| Rep(values[i], t, owned);
        SpellsIsRep(values[i], t, owned);
      }
      if t :| Spells(values[i], t) {
        SpellsIsRep(values[i], t, owned);
      }
    }

    /** What holding an error means: the tree it showed when it was made is the only one it shows. */
    lemma ErrorShowsOneTree(e: CodedError, t: Tree)
      requires e.Valid()
      ensures Rep(e.details, t, e.Repr) <==> t == e.tree
    {
      if Rep(e.details, t, e.Repr) {
        RepIsUnique(e.details, t, e.tree, e.Repr, e.Repr);
      }
    }

    lemma FieldShowsOneTree(f: LogField, t: Tree)
      requires f.Valid()
      ensures Rep(f.value, t, f.Repr) <==> t == f.tree
    {
      if Rep(f.value, t, f.Repr) {
        RepIsUnique(f.value, t, f.tree, f.Repr, f.Repr);
      }
    }

    predicate IsMap(j: nat)
      reads this
    {
      j < |values| && (values[j].NilMap? || values[j].MapRef?)
    }

    /** The operands of a step exist and are of its kind. */
    predicate Fits(s: Step)
      reads *
    {
      match s
      case AddDetails(i, j, tree) => i < |errs| && IsMap(j) && Spells(values[j], tree)
      case WrapError(i, _) => i < |errs|
      case ReadDetails(i) => i < |errs|
      case LogRedacted(j, tree) => IsMap(j) && Spells(values[j], tree)
      case ShowRedacted(i) => i < |fields|
      case StoreKey(i, _, j) => i < |values| && j < |values| && values[i].MapRef?
      case DropKey(i, _) => i < |values| && values[i].MapRef?
      case StoreItem(i, index, j) => i < |values| && j < |values| && values[i].SliceRef? && index < values[i].a.Length
      case LoadKey(i, key) => i < |values| && values[i].MapRef? && key in values[i].m.entries
      case LoadItem(i, index) => i < |values| && values[i].SliceRef? && index < values[i].a.Length
      case _ => true
    }

    static predicate MakesError(s: Step) {
      s.MakeError? || s.AddDetails? || s.WrapError?
    }

    static predicate MakesValue(s: Step) {
      s.ReadDetails? || s.Respond? || s.ShowRedacted? || s.MakePlain? || s.MakeMap? || s.MakeSlice?
      || s.LoadKey? || s.LoadItem?
    }

    /** What a step does; nothing if its operands do not fit. */
    twostate predicate Effect(s: Step)
      requires old(errs) <= errs && old(fields) <= fields && old(values) <= values
      reads *
    {
      var e, f, v := |old(errs)|, |old(fields)|, |old(values)|;
      if !old(Fits(s)) then errs == old(errs) && fields == old(fields) && values == old(values) && cells == old(cells)
      else
        match s
        case MakeError(code, message) =>
          && |errs| == e + 1
          && errs[e].code == code && errs[e].message == message && errs[e].cause == None && errs[e].tree == NilObj
        case AddDetails(i, _, tree) =>
          && |errs| == e + 1
          && errs[e].code == errs[i].code && errs[e].message == errs[i].message && errs[e].cause == errs[i].cause
          && errs[e].tree == Clone(tree)
        case WrapError(i, cause) =>
          && |errs| == e + 1
          && errs[e].code == errs[i].code && errs[e].message == errs[i].message && errs[e].cause == Some(cause)
          && errs[e].details == errs[i].details && errs[e].tree == errs[i].tree
        case ReadDetails(i) => |values| == v + 1 && Rep(values[v], errs[i].tree, owned)
        case Respond(i, _) => |values| == v + 1 && Rep(values[v], if i < |errs| then errs[i].tree else NilObj, owned)
        case LogRedacted(_, tree) => |fields| == f + 1 && fields[f].tree == Redact(lower, tree)
        case ShowRedacted(i) => |values| == v + 1 && Rep(values[v], Redact(lower, fields[i].tree), owned)
        case MakePlain(scalar) => |values| == v + 1 && values[v] == Plain(scalar)
        case MakeMap => |values| == v + 1 && values[v].MapRef? && values[v].m.entries == map[]
        case MakeSlice(n) => |values| == v + 1 && values[v].SliceRef? && values[v].a.Length == n
        case StoreKey(i, key, j) => values[i].m.entries == old(values[i].m.entries)[key := values[j]]
        case DropKey(i, key) => values[i].m.entries == old(values[i].m.entries) - {key}
        case StoreItem(i, index, j) => values[i].a[..] == old(values[i].a[..])[index := values[j]]
        case LoadKey(i, key) => |values| == v + 1 && values[v] == old(values[i].m.entries[key])
        case LoadItem(i, index) => |values| == v + 1 && values[v] == old(values[i].a[index])
        case WriteCell(cell, text) => cells == old(cells)[cell := text]
    }

    method KeepError(e: CodedError)
      requires Inv() && e.Valid() && e.Repr !! owned && this !in e.Repr
      modifies this`errs
      ensures Inv() && errs == old(errs) + [e]
    {
      errs := errs + [e];
    }

    method KeepField(f: LogField)
      requires Inv() && f.Valid() && f.Repr !! owned && this !in f.Repr
      modifies this`fields
      ensures Inv() && fields == old(fields) + [f]
    {
      fields := fields + [f];
    }

    /** A value arrives together with the new objects it consists of. */
    method KeepValue(v: Any, ghost made: set<object>)
      requires Inv() && Closed(made) && Known(v, made + owned) && this !in made
      requires (forall e | e in errs :: e.Repr !! made) && (forall f | f in fields :: f.Repr !! made)
      modifies this`values, this`owned
      ensures Inv() && values == old(values) + [v] && owned == old(owned) + made
    {
      values, owned := values + [v], owned + made;
    }

    method StoreMapEntry(m: GoMap, entries: map<string, Any>)
      requires Inv() && m in owned
      requires forall k | k in entries :: Known(entries[k], owned)
      modifies m
      ensures Inv() && m.entries == entries
    {
      m.entries := entries;
    }

    method StoreSliceItem(a: array<Any>, i: nat, v: Any)
      requires Inv() && a in owned && i < a.Length && Known(v, owned)
      modifies a
      ensures Inv() && a[..] == old(a[..])[i := v]
    {
      a[i] := v;
    }

    /** What a program can do to maps and slices without going through an error. */
    method Tamper(s: Step)
      requires Inv()
      modifies this`values, this`owned, this`cells, owned
      ensures Inv() && errs == old(errs) && fields == old(fields) && owned == old(owned) && old(values) <= values
      ensures !MakesValue(s) ==> values == old(values)
      ensures !s.WriteCell? ==> cells == old(cells)
      ensures s.StoreKey? || s.DropKey? || s.StoreItem? || s.LoadKey? || s.LoadItem? || s.WriteCell? ==> Effect(s)
    {
      if Fits(s) {
        match s
        case StoreKey(i, key, j) => StoreMapEntry(values[i].m, values[i].m.entries[key := values[j]]);
        case DropKey(i, key) => StoreMapEntry(values[i].m, values[i].m.entries - {key});
        case StoreItem(i, index, j) => StoreSliceItem(values[i].a, index, values[j]);
        case LoadKey(i, key) => KeepValue(values[i].m.entries[key], {});
        case LoadItem(i, index) => KeepValue(values[i].a[index], {});
        case WriteCell(cell, text) => cells := cells[cell := text];
        case _ =>
      }
    }

    /** Steps that make a new error. */
    method Derive(s: Step)
      requires Inv()
      modifies this`errs
      ensures Inv() && old(errs) <= errs
      ensures MakesError(s) ==> Effect(s)
    {
      if Fits(s) {
        match s
        case MakeError(code, message) =>
          var e := new CodedError(code, message);
          KeepError(e);
        case AddDetails(i, j, tree) =>
          SpellsIsRep(values[j], tree, owned);
          var e := errs[i].WithDetails(values[j], tree, owned);
          KeepError(e);
        case WrapError(i, cause) =>
          var e := errs[i].Wrap(cause);
          KeepError(e);
        case _ =>
      }
    }

    method ReadError(i: nat)
      requires Inv() && i < |errs|
      modifies this`values, this`owned
      ensures Inv() && |values| == |old(values)| + 1 && old(values) <= values
      ensures fresh(owned - old(owned)) && old(owned) <= owned
      ensures Rep(values[|old(values)|], errs[i].tree, owned)
    {
      var v, made := errs[i].Details();
      KeepValue(v, made);
      RepGrows(v, errs[i].tree, made, owned);
    }

    method RespondWith(e: CodedError?, requestId: string)
      requires Inv() && (e != null ==> e in errs)
      modifies this`values, this`owned
      ensures Inv() && |values| == |old(values)| + 1 && old(values) <= values
      ensures fresh(owned - old(owned)) && old(owned) <= owned
      ensures Rep(values[|old(values)|], if e == null then NilObj else e.tree, owned)
    {
      var response, made := ToResponse(e, requestId);
      KeepValue(response.details, made);
      RepGrows(response.details, if e == null then NilObj else e.tree, made, owned);
    }

    /** Steps that hand a copy of an error's details to the program. */
    method Read(s: Step)
      requires Inv()
      modifies this`values, this`owned
      ensures Inv()
      ensures fresh(owned - old(owned)) && old(owned) <= owned && old(values) <= values
      ensures s.ReadDetails? || s.Respond? ==> Effect(s)
    {
      match s
      case ReadDetails(i) =>
        if i < |errs| {
          ReadError(i);
        }
      case Respond(i, requestId) => RespondWith(if i < |errs| then errs[i] else null, requestId);
      case _ =>
    }

    /** A map of the program is redacted into the log. */
    method LogRedaction(j: nat, tree: Tree)
      requires Inv()
      requires j < |values| && (values[j].NilMap? || values[j].MapRef?) && Rep(values[j], tree, owned)
      modifies this`fields
      ensures Inv() && |fields| == |old(fields)| + 1 && old(fields) <= fields
      ensures fields[|old(fields)|].tree == Redact(lower, tree)
    {
      var r, made := RedactMap(lower, values[j], tree, owned);
      var f := new LogField(r, Redact(lower, tree), made);
      KeepField(f);
    }

    /** A log field is redacted into a new value of the program. */
    method ShowRedaction(i: nat)
      requires Inv() && i < |fields|
      modifies this`values, this`owned
      ensures Inv() && |values| == |old(values)| + 1 && old(values) <= values
      ensures fresh(owned - old(owned)) && old(owned) <= owned
      ensures Rep(values[|old(values)|], Redact(lower, fields[i].tree), owned)
    {
      var f := fields[i];
      var r, made := RedactMap(lower, f.value, f.tree, f.Repr);
      KeepValue(r, made);
      RepGrows(r, Redact(lower, f.tree), made, owned);
    }

    /** Steps that redact: a value of the program into a log field, or a log field into a new value. */
    method Redacting(s: Step)
      requires Inv()
      modifies this`fields, this`values, this`owned
      ensures Inv() && old(fields) <= fields
      ensures fresh(owned - old(owned)) && old(owned) <= owned && old(values) <= values
      ensures !s.LogRedacted? ==> fields == old(fields)
      ensures !s.ShowRedacted? ==> values == old(values)
      ensures s.LogRedacted? || s.ShowRedacted? ==> Effect(s)
    {
      if Fits(s) {
        match s
        case LogRedacted(j, tree) =>
          SpellsIsRep(values[j], tree, owned);
          LogRedaction(j, tree);
        case ShowRedacted(i) => ShowRedaction(i);
        case _ =>
      }
    }

    method KeepNewMap()
      requires Inv()
      modifies this`values, this`owned
      ensures Inv() && |values| == |old(values)| + 1 && old(values) <= values
      ensures fresh(owned - old(owned)) && old(owned) <= owned
      ensures values[|old(values)|].MapRef? && values[|old(values)|].m.entries == map[]
    {
      var m := new GoMap();
      KeepValue(MapRef(m), {m});
    }

    method KeepNewSlice(n: nat)
      requires Inv()
      modifies this`values, this`owned
      ensures Inv() && |values| == |old(values)| + 1 && old(values) <= values
      ensures fresh(owned - old(owned)) && old(owned) <= owned
      ensures values[|old(values)|].SliceRef? && values[|old(values)|].a.Length == n
    {
      var a := new Any[n](_ => Plain(Other("nil")));
      KeepValue(SliceRef(a), {a});
    }

    /** Steps that make a new value. */
    method Make(s: Step)
      requires Inv()
      modifies this`values, this`owned
      ensures Inv()
      ensures fresh(owned - old(owned)) && old(owned) <= owned && old(values) <= values
      ensures s.MakePlain? || s.MakeMap? || s.MakeSlice? ==> Effect(s)
    {
      match s
      case MakePlain(scalar) => KeepValue(Plain(scalar), {});
      case MakeMap => KeepNewMap();
      case MakeSlice(n) => KeepNewSlice(n);
      case _ =>
    }

    /** One step takes its effect; a step whose operands do not fit does nothing. */
    method Perform(s: Step)
      requires Inv()
      modifies this, owned
      ensures Inv() && old(errs) <= errs && old(fields) <= fields && old(values) <= values && fresh(owned - old(owned))
      ensures Effect(s)
      ensures !MakesError(s) ==> errs == old(errs)
      ensures !s.LogRedacted? ==> fields == old(fields)
      ensures !MakesValue(s) ==> values == old(values)
      ensures !s.WriteCell? ==> cells == old(cells)
    {
      hide Effect, Fits;
      match s
      case MakeError(_, _) => Derive(s);
      case AddDetails(_, _, _) => Derive(s);
      case WrapError(_, _) => Derive(s);
      case ReadDetails(_) => Read(s);
      case Respond(_, _) => Read(s);
      case LogRedacted(_, _) => Redacting(s);
      case ShowRedacted(_) => Redacting(s);
      case MakePlain(_) => Make(s);
      case MakeMap => Make(s);
      case MakeSlice(_) => Make(s);
      case _ => Tamper(s);
    }

    /**
     Immutability over every run: whatever the program does with the errors and log fields it has and
     with every map and slice it passed in or received, each error and each log field goes on showing
     exactly the tree it showed before.  A log field is the result of one redaction and the input of
     another, so writes to neither side of a redaction show through the other.  A reader who follows Shared
     values goes on seeing the same too, if there is none inside.
     */
    method Run(program: seq<Step>)
      requires Inv()
      modifies this, owned
      ensures Inv() && old(errs) <= errs && old(fields) <= fields
      ensures forall e, t | e in old(errs) :: Rep(e.details, t, e.Repr) <==> old(Rep(e.details, t, e.Repr))
      ensures forall f, t | f in old(fields) :: Rep(f.value, t, f.Repr) <==> old(Rep(f.value, t, f.Repr))
      ensures forall e | e in old(errs) && NoShared(e.tree) :: Seen(e.tree, cells) == old(Seen(e.tree, cells))
      ensures forall f | f in old(fields) && NoShared(f.tree) :: Seen(f.tree, cells) == old(Seen(f.tree, cells))
    {
      forall e, t | e in errs ensures Rep(e.details, t, e.Repr) <==> t == e.tree {
        ErrorShowsOneTree(e, t);
      }
      forall f, t | f in fields ensures Rep(f.value, t, f.Repr) <==> t == f.tree {
        FieldShowsOneTree(f, t);
      }
      for i := 0 to |program|
        invariant Inv() && old(errs) <= errs && old(fields) <= fields && fresh(owned - old(owned))
      {
        Perform(program[i]);
      }
      forall e, t | e in old(errs) ensures Rep(e.details, t, e.Repr) <==> t == e.tree {
        ErrorShowsOneTree(e, t);
      }
      forall f, t | f in old(fields) ensures Rep(f.value, t, f.Repr) <==> t == f.tree {
        FieldShowsOneTree(f, t);
      }
      forall t | NoShared(t) ensures Seen(t, cells) == Seen(t, old(cells)) {
        SeenIsStable(t, cells, old(cells));
      }
    }
  }
}
