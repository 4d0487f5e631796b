/** Dimension definitions from `internal/dimension.go`: structural
    validation, the create-or-update decision against the app document, and
    the batch that applies every definition found in a set of files.

    The app document is an abstract `Remote`: its answers may depend on the
    writes already issued, and the model returns the writes it issues as a
    trace, so order and count of remote effects can be stated. */
module Dimensions {
  import opened Wrappers
  import opened Strings

  /** A definition's serialized JSON, passed through to the engine as is. */
  type Raw = string

  /** The identity block (`qInfo`) of a definition. */
  datatype NxInfo = NxInfo(id: string, typ: string)

  /** A decoded definition; `info` is absent when the JSON had no `qInfo`. */
  datatype Dimension = Dimension(info: Option<NxInfo>)

  const DimensionType := "dimension"

  // ---------------------------------------------------------------------
  // Validation

  datatype ValidationError = MissingInfo | MissingId | MissingType | WrongType

  function ValidationMessage(e: ValidationError): string
  {
    match e
    case MissingInfo => "missing qInfo attribute"
    case MissingId => "missing qInfo qId attribute"
    case MissingType => "missing qInfo qType attribute"
    case WrongType => "dimensions must have qType: dimension"
  }

  /** Each failed check has its own message. */
  lemma ValidationMessagesDistinct(e1: ValidationError, e2: ValidationError)
    ensures ValidationMessage(e1) == ValidationMessage(e2) <==> e1 == e2
  {
    if e1 != e2 {
      assert |ValidationMessage(e1)| != |ValidationMessage(e2)|;
    }
  }

  /** The condition under which each check rejects a definition. */
  predicate Fails(d: Dimension, e: ValidationError)
  {
    match e
    case MissingInfo => d.info.None?
    case MissingId => d.info.Some? && d.info.value.id == ""
    case MissingType => d.info.Some? && d.info.value.typ == ""
    case WrongType => d.info.Some? && d.info.value.typ != DimensionType
  }

  /** The order in which the checks run. */
  function Position(e: ValidationError): nat
  {
    match e
    case MissingInfo => 0
    case MissingId => 1
    case MissingType => 2
    case WrongType => 3
  }

  /** Go's `Dimension.validate`: `None` for a valid definition, otherwise
      the first check, in the fixed order, that rejects it. */
  function Validate(d: Dimension): (r: Option<ValidationError>)
    ensures r.None? <==> d.info.Some? && d.info.value.id != "" && d.info.value.typ == DimensionType
    ensures r.None? <==> forall e :: !Fails(d, e)
    ensures r.Some? ==> Fails(d, r.value)
    ensures r.Some? ==> forall e :: Position(e) < Position(r.value) ==> !Fails(d, e)
  {
    if d.info.None? then assert Fails(d, MissingInfo); Some(MissingInfo)
    else if d.info.value.id == "" then assert Fails(d, MissingId); Some(MissingId)
    else if d.info.value.typ == "" then assert Fails(d, MissingType); Some(MissingType)
    else if d.info.value.typ != DimensionType then assert Fails(d, WrongType); Some(WrongType)
    else None
  }

  lemma ValidateExamples()
    ensures Validate(Dimension(Some(NxInfo("d1", "measure")))) == Some(WrongType)
    ensures Validate(Dimension(Some(NxInfo("d1", "dimension")))) == None
  {
  }

  // ---------------------------------------------------------------------
  // The app document

  /** A write issued to the document: an update of the existing dimension
      with the given id, or the creation of a new one. */
  datatype Write = Update(id: string, raw: Raw) | Create(raw: Raw)

  /** The document's answers, each given the writes issued so far:
      `getDimension` yields a handle (0 when there is no such dimension) or
      an error; the two writes yield an error or `None` on success. */
  datatype Remote = Remote(
    getDimension: (seq<Write>, string) -> Result<int, string>,
    setPropertiesRaw: (seq<Write>, string, Raw) -> Option<string>,
    createDimensionRaw: (seq<Write>, Raw) -> Option<string>)

  /** The document's answer to a write issued after `history`. */
  function WriteResult(remote: Remote, history: seq<Write>, w: Write): Option<string>
  {
    match w
    case Update(id, raw) => remote.setPropertiesRaw(history, id, raw)
    case Create(raw) => remote.createDimensionRaw(history, raw)
  }

  datatype ApplyError =
    | LookupFailed(message: string)
    | UpdateFailed(id: string, message: string)
    | CreateFailed(id: string, message: string)

  function ApplyMessage(e: ApplyError): string
  {
    match e
    case LookupFailed(m) => m
    case UpdateFailed(id, m) => "could not update dimension with " + id + ": " + m
    case CreateFailed(id, m) => "could not create dimension with " + id + ": " + m
  }

  /** A failed update and a failed create read differently; for one
      dimension id, the message also gives back the document's error. */
  lemma ApplyMessageIdentifiesWrite(e1: ApplyError, e2: ApplyError)
    requires !e1.LookupFailed? && !e2.LookupFailed?
    requires ApplyMessage(e1) == ApplyMessage(e2)
    ensures e1.UpdateFailed? == e2.UpdateFailed?
    ensures e1.id == e2.id ==> e1 == e2
  {
    if e1.UpdateFailed? != e2.UpdateFailed? {
      DifferAt(ApplyMessage(e1), ApplyMessage(e2), 10);
      assert false;
    } else if e1.id == e2.id {
      var head := (if e1.UpdateFailed? then "could not update dimension with " else "could not create dimension with ")
                  + e1.id + ": ";
      assert ApplyMessage(e1) == head + e1.message + "";
      assert ApplyMessage(e2) == head + e2.message + "";
      FramedInjective(head, e1.message, e2.message, "");
    }
  }

  /** Writes issued and the error, if any, that ended the work. */
  datatype Applied<E> = Applied(writes: seq<Write>, err: Option<E>)

  /** Go's `setDimension`: look the id up; a failed lookup is returned as
      it is and writes nothing; otherwise exactly one write is issued, an
      update when a dimension with that id exists (non-zero handle) and a
      create when it does not, and its failure is reported with the id. */
  function SetDimension(remote: Remote, history: seq<Write>, id: string, raw: Raw): (r: Applied<ApplyError>)
    ensures remote.getDimension(history, id).Failure? ==>
              r == Applied([], Some(LookupFailed(remote.getDimension(history, id).error)))
    ensures remote.getDimension(history, id).Success? ==>
              && |r.writes| == 1
              && r.writes[0].raw == raw
              && (r.writes[0].Update? <==> remote.getDimension(history, id).value != 0)
              && (r.writes[0].Update? ==> r.writes[0].id == id)
              && (r.err.None? <==> WriteResult(remote, history, r.writes[0]).None?)
              && (r.err.Some? ==> !r.err.value.LookupFailed? && r.err.value.id == id
                                  && (r.err.value.UpdateFailed? <==> r.writes[0].Update?)
                                  && r.err.value.message == WriteResult(remote, history, r.writes[0]).value)
  {
    match remote.getDimension(history, id)
    case Failure(e) => Applied([], Some(LookupFailed(e)))
    case Success(handle) =>
      if handle != 0 then
        match remote.setPropertiesRaw(history, id, raw)
        case Some(e) => Applied([Update(id, raw)], Some(UpdateFailed(id, e)))
        case None => Applied([Update(id, raw)], None)
      else
        match remote.createDimensionRaw(history, raw)
        case Some(e) => Applied([Create(raw)], Some(CreateFailed(id, e)))
        case None => Applied([Create(raw)], None)
  }

  // ---------------------------------------------------------------------
  // Applying every definition matched by a glob pattern

  /** One raw definition from a file and the outcome of decoding it. */
  datatype RawEntity = RawEntity(raw: Raw, decoded: Result<Dimension, string>)

  /** A matched file and the outcome of parsing it into raw definitions. */
  datatype EntityFile = EntityFile(path: string, parsed: Result<seq<RawEntity>, string>)

  /** A raw definition together with the file it came from. */
  datatype Item = Item(path: string, entity: RawEntity)

  datatype BatchError =
    | GlobFailed(message: string)
    | ParseFailed(path: string, message: string)
    | DecodeFailed(path: string, message: string)
    | Invalid(path: string, reason: ValidationError)
    | ApplyFailed(cause: ApplyError)

  function BatchMessage(e: BatchError): string
  {
    match e
    case GlobFailed(m) => "could not interpret glob pattern:  " + m
    case ParseFailed(path, m) => "could not parse file " + path + ": " + m
    case DecodeFailed(path, m) => "could not parse data in file " + path + ": " + m
    case Invalid(path, v) => "validation error in file " + path + ": " + ValidationMessage(v)
    case ApplyFailed(a) => ApplyMessage(a)
  }

  /** The three per-file failures read differently whatever the paths and
      details, and a validation failure names its check. */
  lemma BatchMessageIdentifiesFileFailure(e1: BatchError, e2: BatchError)
    requires e1.ParseFailed? || e1.DecodeFailed? || e1.Invalid?
    requires e2.ParseFailed? || e2.DecodeFailed? || e2.Invalid?
    requires BatchMessage(e1) == BatchMessage(e2)
    ensures e1.ParseFailed? == e2.ParseFailed? && e1.DecodeFailed? == e2.DecodeFailed?
    ensures e1.Invalid? && e2.Invalid? && e1.path == e2.path ==> e1.reason == e2.reason
  {
    if e1.Invalid? != e2.Invalid? {
      DifferAt(BatchMessage(e1), BatchMessage(e2), 0);
      assert false;
    } else if e1.ParseFailed? != e2.ParseFailed? {
      DifferAt(BatchMessage(e1), BatchMessage(e2), 16);
      assert false;
    }
    if e1.Invalid? && e2.Invalid? && e1.path == e2.path {
      FramedInjective("validation error in file " + e1.path + ": ",
                      ValidationMessage(e1.reason), ValidationMessage(e2.reason), "");
      ValidationMessagesDistinct(e1.reason, e2.reason);
    }
  }

  /** A definition that decoded and passed validation. */
  predicate Valid(it: Item)
  {
    it.entity.decoded.Success? && Validate(it.entity.decoded.value).None?
  }

  /** The id a valid definition is applied under: its own `qInfo.qId`. */
  function IdOf(it: Item): string
    requires Valid(it)
  {
    it.entity.decoded.value.info.value.id
  }

  /** The handling of one definition: decode, validate, then
      `setDimension` under the definition's own id. Nothing reaches the
      document unless the definition decoded and is valid. */
  function Step(remote: Remote, history: seq<Write>, it: Item): (r: Applied<BatchError>)
    ensures |r.writes| <= 1
    ensures r.err.None? ==> |r.writes| == 1
    ensures !Valid(it) ==> r.writes == [] && r.err.Some?
    ensures it.entity.decoded.Failure? ==> r.err == Some(DecodeFailed(it.path, it.entity.decoded.error))
    ensures it.entity.decoded.Success? && Validate(it.entity.decoded.value).Some? ==>
              r.err == Some(Invalid(it.path, Validate(it.entity.decoded.value).value))
    ensures Valid(it) ==>
              var a := SetDimension(remote, history, IdOf(it), it.entity.raw);
              r.writes == a.writes && (r.err.None? <==> a.err.None?)
              && (a.err.Some? ==> r.err == Some(ApplyFailed(a.err.value)))
  {
    match it.entity.decoded
    case Failure(e) => Applied([], Some(DecodeFailed(it.path, e)))
    case Success(dim) =>
      match Validate(dim)
      case Some(v) => Applied([], Some(Invalid(it.path, v)))
      case None =>
        var a := SetDimension(remote, history, dim.info.value.id, it.entity.raw);
        Applied(a.writes, if a.err.Some? then Some(ApplyFailed(a.err.value)) else None)
  }

  /** Index of the first file that failed to parse, or the number of files. */
  function FirstUnparsed(files: seq<EntityFile>): (n: nat)
    ensures n <= |files|
    ensures forall j :: 0 <= j < n ==> files[j].parsed.Success?
    ensures n < |files| ==> files[n].parsed.Failure?
  {
    if |files| == 0 then 0
    else if files[0].parsed.Failure? then 0
    else 1 + FirstUnparsed(files[1..])
  }

  function ItemsOf(f: EntityFile): seq<Item>
    requires f.parsed.Success?
  {
    seq(|f.parsed.value|, i requires 0 <= i < |f.parsed.value| => Item(f.path, f.parsed.value[i]))
  }

  /** The definitions of the given files in order: file by file, and in
      file order within a file. */
  function Flatten(files: seq<EntityFile>): seq<Item>
    requires forall j :: 0 <= j < |files| ==> files[j].parsed.Success?
  {
    if |files| == 0 then []
    else Flatten(files[..|files| - 1]) + ItemsOf(files[|files| - 1])
  }

  /** The definitions the batch can reach: those of the files before the
      first one that fails to parse. */
  function Reachable(files: seq<EntityFile>): seq<Item>
  {
    Flatten(files[..FirstUnparsed(files)])
  }

  /** Each of the first `|writes|` items was handled without error and
      issued exactly the corresponding write, each one seeing the writes
      before it. */
  ghost predicate AppliedInOrder(remote: Remote, items: seq<Item>, writes: seq<Write>)
  {
    && |writes| <= |items|
    && forall i :: 0 <= i < |writes| ==> Step(remote, writes[..i], items[i]) == Applied([writes[i]], None)
  }

  /** The batch stopped at item `k`: everything before it was applied in
      order, and the handling of item `k` failed, contributing its write
      (if it got that far) and the error. */
  ghost predicate StoppedAt(remote: Remote, items: seq<Item>, r: Applied<BatchError>, k: nat)
  {
    && k < |items|
    && k <= |r.writes|
    && AppliedInOrder(remote, items, r.writes[..k])
    && var a := Step(remote, r.writes[..k], items[k]);
       a.err.Some? && r.writes == r.writes[..k] + a.writes && r.err == a.err
  }

  lemma AppliedInOrderExtend(remote: Remote, items: seq<Item>, writes: seq<Write>, w: Write)
    requires AppliedInOrder(remote, items, writes)
    requires |writes| < |items|
    requires Step(remote, writes, items[|writes|]) == Applied([w], None)
    ensures AppliedInOrder(remote, items, writes + [w])
  {
    var ws := writes + [w];
    forall i | 0 <= i < |ws|
      ensures Step(remote, ws[..i], items[i]) == Applied([ws[i]], None)
    {
      if i < |writes| {
        assert ws[..i] == writes[..i];
      } else {
        assert ws[..i] == writes;
      }
    }
  }

  lemma AppliedInOrderGrow(remote: Remote, items: seq<Item>, more: seq<Item>, writes: seq<Write>)
    requires AppliedInOrder(remote, items, writes)
    ensures AppliedInOrder(remote, items + more, writes)
  {
    forall i | 0 <= i < |writes|
      ensures Step(remote, writes[..i], (items + more)[i]) == Applied([writes[i]], None)
    {
      assert (items + more)[i] == items[i];
    }
  }

  /** What a batch run may end with. A glob failure issues nothing.
      Success means every file parsed and every definition was applied, in
      order. Otherwise the run either applied every reachable definition
      and then met a file that does not parse, or stopped at the first
      definition whose handling failed. */
  ghost predicate BatchOutcome(remote: Remote, resolved: Result<seq<EntityFile>, string>, r: Applied<BatchError>)
  {
    && (resolved.Failure? ==> r == Applied([], Some(GlobFailed(resolved.error))))
    && (resolved.Success? && r.err.None? ==>
          && (forall j :: 0 <= j < |resolved.value| ==> resolved.value[j].parsed.Success?)
          && |r.writes| == |Reachable(resolved.value)|
          && AppliedInOrder(remote, Reachable(resolved.value), r.writes))
    && (resolved.Success? && r.err.Some? ==>
          || (&& |r.writes| == |Reachable(resolved.value)|
              && AppliedInOrder(remote, Reachable(resolved.value), r.writes)
              && var n := FirstUnparsed(resolved.value);
                 n < |resolved.value|
                 && r.err == Some(ParseFailed(resolved.value[n].path, resolved.value[n].parsed.error)))
          || (exists k :: StoppedAt(remote, Reachable(resolved.value), r, k)))
  }

  /** Go's `SetDimensions`: for every matched file in order, for every
      definition in it in order, decode, validate and apply it, stopping
      at the first failure of any kind. Writes issued before a failure
      stay issued. */
  method SetDimensions(remote: Remote, resolved: Result<seq<EntityFile>, string>)
    returns (r: Applied<BatchError>)
    ensures BatchOutcome(remote, resolved, r)
  {
    if resolved.Failure? {
      return Applied([], Some(GlobFailed(resolved.error)));
    }
    var files := resolved.value;
    var writes: seq<Write> := [];
    for fi := 0 to |files|
      invariant forall j :: 0 <= j < fi ==> files[j].parsed.Success?
      invariant |writes| == |Flatten(files[..fi])|
      invariant AppliedInOrder(remote, Flatten(files[..fi]), writes)
    {
      var file := files[fi];
      if file.parsed.Failure? {
        UnparsedFileEndsReach(files, fi);
        return Applied(writes, Some(ParseFailed(file.path, file.parsed.error)));
      }
      ghost var before := Flatten(files[..fi]);
      var entities := file.parsed.value;
      for ei := 0 to |entities|
        invariant |writes| == |before| + ei
        invariant AppliedInOrder(remote, before + ItemsOf(file)[..ei], writes)
      {
        var item := Item(file.path, entities[ei]);
        var a := Step(remote, writes, item);
        if a.err.Some? {
          r := Applied(writes + a.writes, a.err);
          StopInFile(remote, files, fi, ei, writes, a);
          return;
        }
        ContinueInFile(remote, before, file, ei, writes, a);
        writes := writes + a.writes;
      }
      FileDone(files, fi);
    }
    assert files[..|files|] == files;
    assert FirstUnparsed(files) == |files|;
    r := Applied(writes, None);
  }

  lemma UnparsedFileEndsReach(files: seq<EntityFile>, fi: nat)
    requires fi < |files|
    requires forall j :: 0 <= j < fi ==> files[j].parsed.Success?
    requires files[fi].parsed.Failure?
    ensures FirstUnparsed(files) == fi
    ensures Reachable(files) == Flatten(files[..fi])
  {
  }

  lemma FileDone(files: seq<EntityFile>, fi: nat)
    requires fi < |files|
    requires forall j :: 0 <= j <= fi ==> files[j].parsed.Success?
    ensures Flatten(files[..fi + 1]) == Flatten(files[..fi]) + ItemsOf(files[fi])[..|files[fi].parsed.value|]
  {
    assert files[..fi + 1][..fi] == files[..fi];
    assert ItemsOf(files[fi])[..|files[fi].parsed.value|] == ItemsOf(files[fi]);
  }

  lemma ContinueInFile(remote: Remote, before: seq<Item>, file: EntityFile, ei: nat,
                       writes: seq<Write>, a: Applied<BatchError>)
    requires file.parsed.Success? && ei < |file.parsed.value|
    requires |writes| == |before| + ei
    requires AppliedInOrder(remote, before + ItemsOf(file)[..ei], writes)
    requires a == Step(remote, writes, Item(file.path, file.parsed.value[ei])) && a.err.None?
    ensures AppliedInOrder(remote, before + ItemsOf(file)[..ei + 1], writes + a.writes)
  {
    var item := Item(file.path, file.parsed.value[ei]);
    assert ItemsOf(file)[..ei + 1] == ItemsOf(file)[..ei] + [item];
    AppliedInOrderGrow(remote, before + ItemsOf(file)[..ei], [item], writes);
    assert before + ItemsOf(file)[..ei] + [item] == before + ItemsOf(file)[..ei + 1];
    assert a == Applied([a.writes[0]], None);
    AppliedInOrderExtend(remote, before + ItemsOf(file)[..ei + 1], writes, a.writes[0]);
  }

  lemma StopInFile(remote: Remote, files: seq<EntityFile>, fi: nat, ei: nat,
                   writes: seq<Write>, a: Applied<BatchError>)
    requires fi < |files|
    requires forall j :: 0 <= j <= fi ==> files[j].parsed.Success?
    requires ei < |files[fi].parsed.value|
    requires |writes| == |Flatten(files[..fi])| + ei
    requires AppliedInOrder(remote, Flatten(files[..fi]) + ItemsOf(files[fi])[..ei], writes)
    requires a == Step(remote, writes, Item(files[fi].path, files[fi].parsed.value[ei])) && a.err.Some?
    ensures StoppedAt(remote, Reachable(files), Applied(writes + a.writes, a.err), |writes|)
  {
    var file := files[fi];
    var before := Flatten(files[..fi]);
    var items := before + ItemsOf(file);
    var k := |writes|;
    var r := Applied(writes + a.writes, a.err);
    assert r.writes[..k] == writes;
    assert ItemsOf(file)[..ei] + ItemsOf(file)[ei..] == ItemsOf(file);
    AppliedInOrderGrow(remote, before + ItemsOf(file)[..ei], ItemsOf(file)[ei..], writes);
    assert before + ItemsOf(file)[..ei] + ItemsOf(file)[ei..] == items;
    FileDone(files, fi);
    assert Flatten(files[..fi + 1]) == items;
    ReachableCovers(files, fi + 1);
    AppliedInOrderGrow(remote, items, Reachable(files)[|items|..], writes);
    assert items[k] == Item(file.path, file.parsed.value[ei]);
    assert (items + Reachable(files)[|items|..])[k] == items[k];
  }

  /** When the first `n` files parsed, the reachable definitions start
      with theirs. */
  lemma ReachableCovers(files: seq<EntityFile>, n: nat)
    requires n <= |files|
    requires forall j :: 0 <= j < n ==> files[j].parsed.Success?
    ensures n <= FirstUnparsed(files)
    ensures |Flatten(files[..n])| <= |Reachable(files)|
    ensures Reachable(files) == Flatten(files[..n]) + Reachable(files)[|Flatten(files[..n])|..]
  {
    var m := FirstUnparsed(files);
    FlattenPrefix(files[..m], n);
    assert files[..m][..n] == files[..n];
  }

  lemma {:induction false} FlattenPrefix(files: seq<EntityFile>, n: nat)
    requires n <= |files|
    requires forall j :: 0 <= j < |files| ==> files[j].parsed.Success?
    ensures |Flatten(files[..n])| <= |Flatten(files)|
    ensures Flatten(files) == Flatten(files[..n]) + Flatten(files)[|Flatten(files[..n])|..]
    decreases |files|
  {
    if n < |files| {
      var init := files[..|files| - 1];
      FlattenPrefix(init, n);
      assert init[..n] == files[..n];
    } else {
      assert files[..n] == files;
    }
  }

  // ---------------------------------------------------------------------
  // Consequences

  /** Every write of an in-order run belongs to the definition at the same
      position: that definition decoded and is valid, the write carries its
      raw form, an update carries its own id, and the write is an update
      exactly when the document had a dimension with that id at that point. */
  lemma AppliedWritesMatchDefinitions(remote: Remote, items: seq<Item>, writes: seq<Write>, i: nat)
    requires AppliedInOrder(remote, items, writes)
    requires i < |writes|
    ensures Valid(items[i])
    ensures writes[i].raw == items[i].entity.raw
    ensures writes[i].Update? ==> writes[i].id == IdOf(items[i])
    ensures remote.getDimension(writes[..i], IdOf(items[i])).Success?
    ensures writes[i].Update? <==> remote.getDimension(writes[..i], IdOf(items[i])).value != 0
    ensures WriteResult(remote, writes[..i], writes[i]).None?
  {
    var a := Step(remote, writes[..i], items[i]);
    assert a == Applied([writes[i]], None);
  }

  /** A definition that does not decode or does not validate stops the
      run before anything is written for it. */
  lemma InvalidDefinitionWritesNothing(remote: Remote, items: seq<Item>, r: Applied<BatchError>, k: nat)
    requires StoppedAt(remote, items, r, k)
    requires !Valid(items[k])
    ensures |r.writes| == k
    ensures r.err.value.DecodeFailed? || r.err.value.Invalid?
  {
    assert r.writes == r.writes[..k] + [];
  }

  /** Two files that both parse contribute all their definitions, first
      file first. */
  lemma TwoParsedFilesReach(f1: EntityFile, f2: EntityFile)
    requires f1.parsed.Success? && f2.parsed.Success?
    ensures Reachable([f1, f2]) == ItemsOf(f1) + ItemsOf(f2)
  {
    var files := [f1, f2];
    assert FirstUnparsed(files) == 2 by {
      assert files[1..] == [f2];
      assert [f2][1..] == [];
    }
    assert files[..2] == files;
    assert files[..1] == [f1];
    assert [f1][..0] == [];
    assert Flatten([f1]) == ItemsOf(f1);
  }

  /** A two-file run: the first file holds one valid definition the
      document accepts, the second one whose `qId` is empty. The first
      definition's write is issued, and the run then stops with a
      validation error for the second file, which never reaches the
      document. */
  lemma {:induction false} SecondFileInvalid(remote: Remote, first: Raw, second: Raw, p1: string, p2: string,
                                             id: string, r: Applied<BatchError>)
    requires id != ""
    requires remote.getDimension([], id).Success?
    requires var h := remote.getDimension([], id).value;
             (h != 0 ==> remote.setPropertiesRaw([], id, first).None?)
             && (h == 0 ==> remote.createDimensionRaw([], first).None?)
    requires BatchOutcome(remote, Success([
               EntityFile(p1, Success([RawEntity(first, Success(Dimension(Some(NxInfo(id, DimensionType)))))])),
               EntityFile(p2, Success([RawEntity(second, Success(Dimension(Some(NxInfo("", DimensionType)))))]))]), r)
    ensures r.writes == [if remote.getDimension([], id).value != 0 then Update(id, first) else Create(first)]
    ensures r.err == Some(Invalid(p2, MissingId))
  {
    var e1 := RawEntity(first, Success(Dimension(Some(NxInfo(id, DimensionType)))));
    var e2 := RawEntity(second, Success(Dimension(Some(NxInfo("", DimensionType)))));
    var f1 := EntityFile(p1, Success([e1]));
    var f2 := EntityFile(p2, Success([e2]));
    var files := [f1, f2];
    TwoParsedFilesReach(f1, f2);
    assert ItemsOf(f1) == [Item(p1, e1)];
    assert ItemsOf(f2) == [Item(p2, e2)];
    var items := [Item(p1, e1), Item(p2, e2)];
    assert Reachable(files) == items;
    assert Step(remote, [], items[0]).err.None?;
    assert !Valid(items[1]);
    if r.err.None? {
      assert false;
    }
    var k :| StoppedAt(remote, items, r, k);
    if k == 0 {
      assert false;
    }
    assert k == 1;
    AppliedWritesMatchDefinitions(remote, items, r.writes[..1], 0);
    InvalidDefinitionWritesNothing(remote, items, r, 1);
  }
}
