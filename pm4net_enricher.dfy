/** The older pm4net enricher (Serilog.Enrichers.pm4net/Enricher.cs): when
    caller information is asked for, picks the first stack frame whose method
    belongs to an allowed assembly and adds its method name, declaring type
    and, optionally, its raw source file name with line and column, under
    prefixed keys and without overwriting properties the event already has.
    It writes no marker property and does not shorten the file name. */
module Pm4NetEnricher {
  import opened Common
  import opened Paths
  import opened LogEvents
  import opened StackFrames

  /** The default value of the constructor's `prefix` parameter. */
  const DefaultPrefix: string := "pm4net_"

  /** The enricher's configuration, fixed at construction. `allowedAssemblies`
      is a list searched with an OrdinalIgnoreCase comparer; `prefix` may be
      null. */
  datatype Enricher = Enricher(
    includeCallerInfo: bool,
    includeFileInfo: bool,
    allowedAssemblies: seq<string>,
    prefix: Option<string>)

  /** The constructor: a null list of allowed assemblies is stored as the empty list. */
  function NewEnricher(includeCallerInfo: bool, includeFileInfo: bool, allowedAssemblies: Option<seq<string>>, prefix: Option<string>): (e: Enricher)
    ensures allowedAssemblies.None? ==> e.allowedAssemblies == []
    ensures allowedAssemblies.Some? ==> e.allowedAssemblies == allowedAssemblies.value
    ensures e.includeCallerInfo == includeCallerInfo && e.includeFileInfo == includeFileInfo && e.prefix == prefix
  {
    Enricher(includeCallerInfo, includeFileInfo, allowedAssemblies.GetOr([]), prefix)
  }

  /** The text a key starts with: interpolating a null prefix gives nothing. */
  function KeyPrefix(e: Enricher): string
  {
    e.prefix.GetOr("")
  }

  /** Extensions.IsInAllowedAssembly: false for a method without a declaring
      type, otherwise whether the list holds the type's assembly name, compared
      ignoring case. */
  predicate IsInAllowedAssembly(f: Frame, allowedAssemblies: seq<string>)
  {
    f.declaringType.Some? &&
    exists i :: 0 <= i < |allowedAssemblies| && EqualsIgnoreCase(allowedAssemblies[i], f.declaringType.value.assemblyName)
  }

  /** A method without a declaring type is never allowed, nor is any method
      by an empty list; an assembly whose name is in the list is allowed. */
  lemma AllowedAssemblyCases(f: Frame, allowedAssemblies: seq<string>)
    ensures f.declaringType.None? ==> !IsInAllowedAssembly(f, allowedAssemblies)
    ensures allowedAssemblies == [] ==> !IsInAllowedAssembly(f, allowedAssemblies)
    ensures f.declaringType.Some? && f.declaringType.value.assemblyName in allowedAssemblies ==>
              IsInAllowedAssembly(f, allowedAssemblies)
  {
    if f.declaringType.Some? && f.declaringType.value.assemblyName in allowedAssemblies {
      var i :| 0 <= i < |allowedAssemblies| && allowedAssemblies[i] == f.declaringType.value.assemblyName;
      assert EqualsIgnoreCase(allowedAssemblies[i], f.declaringType.value.assemblyName);
    }
  }

  /** The list is searched ignoring case: two assemblies whose names differ
      only in case are both allowed or both not. */
  lemma AllowedAssemblyIgnoresCase(f: Frame, g: Frame, allowedAssemblies: seq<string>)
    requires f.declaringType.Some? && g.declaringType.Some?
    requires EqualsIgnoreCase(f.declaringType.value.assemblyName, g.declaringType.value.assemblyName)
    ensures IsInAllowedAssembly(f, allowedAssemblies) <==> IsInAllowedAssembly(g, allowedAssemblies)
  {
    var a, b := f.declaringType.value.assemblyName, g.declaringType.value.assemblyName;
    if IsInAllowedAssembly(f, allowedAssemblies) {
      var i :| 0 <= i < |allowedAssemblies| && EqualsIgnoreCase(allowedAssemblies[i], a);
      assert EqualsIgnoreCase(allowedAssemblies[i], b);
    }
    if IsInAllowedAssembly(g, allowedAssemblies) {
      var i :| 0 <= i < |allowedAssemblies| && EqualsIgnoreCase(allowedAssemblies[i], b);
      assert EqualsIgnoreCase(allowedAssemblies[i], a);
    }
  }

  /** The predicate given to FirstOrDefault. */
  predicate Selects(e: Enricher, f: Frame)
  {
    f.hasMethod && IsInAllowedAssembly(f, e.allowedAssemblies)
  }

  /** The index of the frame the enricher reports, if any. */
  function CallerFrame(e: Enricher, stack: seq<Frame>): Option<nat>
  {
    FirstWhere(stack, f => Selects(e, f))
  }

  /** Method and Namespace of the frame found. */
  function CallerOffered(e: Enricher, frame: Frame): seq<Property>
    requires frame.declaringType.Some?
  {
    [Property(PropertyKey(KeyPrefix(e), Method), Str(frame.methodName)),
     Property(PropertyKey(KeyPrefix(e), Namespace), Str(frame.declaringType.value.fullName))]
  }

  /** SourceFile (the file name as the symbols give it), LineNumber and
      ColumnNumber, offered when file information is asked for and the file
      name is not null. */
  function FileOffered(e: Enricher, frame: Frame): seq<Property>
  {
    if !e.includeFileInfo || frame.fileName.None? then []
    else [Property(PropertyKey(KeyPrefix(e), SourceFile), Str(PathText(frame.fileName.value))),
          Property(PropertyKey(KeyPrefix(e), LineNumber), Int(frame.lineNumber)),
          Property(PropertyKey(KeyPrefix(e), ColumnNumber), Int(frame.columnNumber))]
  }

  /** The AddPropertyIfAbsent calls one AddCallerInfo call makes, in order. */
  function CallerInfoOffered(e: Enricher, stack: seq<Frame>): seq<Property>
  {
    match CallerFrame(e, stack)
    case None => []
    case Some(i) =>
      if stack[i].declaringType.None? then []
      else CallerOffered(e, stack[i]) + FileOffered(e, stack[i])
  }

  /** The AddPropertyIfAbsent calls one Enrich call makes, in order. */
  function Offered(e: Enricher, stack: seq<Frame>): seq<Property>
  {
    if e.includeCallerInfo then CallerInfoOffered(e, stack) else []
  }

  method AddCallerInfo(e: Enricher, logEvent: LogEvent, stack: seq<Frame>)
    modifies logEvent
    ensures logEvent.properties == AddAllIfAbsent(old(logEvent.properties), CallerInfoOffered(e, stack))
  {
    ghost var props := logEvent.properties;
    var frame := CallerFrame(e, stack);
    if frame.Some? && stack[frame.value].declaringType.Some? {
      var f := stack[frame.value];
      var declaringType := f.declaringType.value;
      var methodProperty := Property(PropertyKey(KeyPrefix(e), Method), Str(f.methodName));
      var namespaceProperty := Property(PropertyKey(KeyPrefix(e), Namespace), Str(declaringType.fullName));
      logEvent.AddPropertyIfAbsent(methodProperty);
      logEvent.AddPropertyIfAbsent(namespaceProperty);
      AddAllIfAbsentPair(props, [], methodProperty, namespaceProperty);
      ghost var caller := CallerOffered(e, f);
      assert caller == [] + [methodProperty, namespaceProperty];
      assert logEvent.properties == AddAllIfAbsent(props, caller);
      if e.includeFileInfo {
        var fileName := f.fileName;
        if fileName.Some? {
          var sourceFile := Property(PropertyKey(KeyPrefix(e), SourceFile), Str(PathText(fileName.value)));
          var lineNumber := Property(PropertyKey(KeyPrefix(e), LineNumber), Int(f.lineNumber));
          var columnNumber := Property(PropertyKey(KeyPrefix(e), ColumnNumber), Int(f.columnNumber));
          logEvent.AddPropertyIfAbsent(sourceFile);
          logEvent.AddPropertyIfAbsent(lineNumber);
          logEvent.AddPropertyIfAbsent(columnNumber);
          AddAllIfAbsentTriple(props, caller, sourceFile, lineNumber, columnNumber);
        }
      }
      if FileOffered(e, f) == [] {
        assert caller + FileOffered(e, f) == caller;
      }
      assert caller + FileOffered(e, f) == CallerInfoOffered(e, stack);
    }
  }

  method Enrich(e: Enricher, logEvent: LogEvent, stack: seq<Frame>)
    modifies logEvent
    ensures logEvent.properties == AddAllIfAbsent(old(logEvent.properties), Offered(e, stack))
    ensures !e.includeCallerInfo ==> logEvent.properties == old(logEvent.properties)
  {
    if e.includeCallerInfo {
      AddCallerInfo(e, logEvent, stack);
    }
  }

  /** The frame reported is the first, innermost, frame that has a method and
      whose declaring type's assembly is in the list, compared ignoring case;
      when there is none, no frame is reported. */
  lemma CallerFrameIsFirst(e: Enricher, stack: seq<Frame>)
    ensures match CallerFrame(e, stack)
      case Some(i) =>
        && i < |stack| && stack[i].hasMethod && stack[i].declaringType.Some?
        && (exists k :: 0 <= k < |e.allowedAssemblies| &&
              EqualsIgnoreCase(e.allowedAssemblies[k], stack[i].declaringType.value.assemblyName))
        && forall j :: 0 <= j < i ==> !Selects(e, stack[j])
      case None =>
        forall j :: 0 <= j < |stack| ==> !Selects(e, stack[j])
  {
  }

  /** The fields Enrich writes: none when caller information is off or no
      frame is found, else Method and Namespace, then the file fields when
      the file is offered. */
  function ReportedFields(e: Enricher, stack: seq<Frame>): (fields: seq<Field>)
    ensures Method in fields <==> e.includeCallerInfo && CallerFrame(e, stack).Some?
    ensures Namespace in fields <==> e.includeCallerInfo && CallerFrame(e, stack).Some?
    ensures SourceFile in fields <==> OffersFile(e, stack)
    ensures LineNumber in fields <==> OffersFile(e, stack)
    ensures ColumnNumber in fields <==> OffersFile(e, stack)
  {
    if !e.includeCallerInfo then []
    else match CallerFrame(e, stack)
      case None => []
      case Some(i) => CallerFields(FileOffered(e, stack[i]) != [])
  }

  /** The caller and file offers for one frame are keyed by the caller
      fields, in order. */
  lemma FrameKeys(e: Enricher, frame: Frame)
    requires frame.declaringType.Some?
    ensures KeysAre(CallerOffered(e, frame) + FileOffered(e, frame), KeyPrefix(e), CallerFields(FileOffered(e, frame) != []))
  {
  }

  /** The offers of one Enrich call are keyed by the reported fields, in order. */
  lemma OfferedLayout(e: Enricher, stack: seq<Frame>)
    ensures KeysAre(Offered(e, stack), KeyPrefix(e), ReportedFields(e, stack))
  {
    var found := CallerFrame(e, stack);
    if e.includeCallerInfo && found.Some? {
      var frame := stack[found.value];
      FrameKeys(e, frame);
      assert Offered(e, stack) == CallerOffered(e, frame) + FileOffered(e, frame);
      assert ReportedFields(e, stack) == CallerFields(FileOffered(e, frame) != []);
    } else {
      assert Offered(e, stack) == [] && ReportedFields(e, stack) == [];
    }
  }

  /** The keys offered are distinct, and each is a prefixed field key: no
      marker is ever offered. */
  lemma OfferedKeys(e: Enricher, stack: seq<Frame>)
    ensures DistinctKeys(Offered(e, stack))
    ensures forall i :: 0 <= i < |Offered(e, stack)| ==> exists f :: Offered(e, stack)[i].key == PropertyKey(KeyPrefix(e), f)
  {
    var offered, fields := Offered(e, stack), ReportedFields(e, stack);
    OfferedLayout(e, stack);
    if e.includeCallerInfo && CallerFrame(e, stack).Some? {
      CallerFieldsDistinct(FileOffered(e, stack[CallerFrame(e, stack).value]) != []);
    }
    KeysAreDistinct(offered, KeyPrefix(e), fields);
    forall i | 0 <= i < |offered| ensures exists f :: offered[i].key == PropertyKey(KeyPrefix(e), f) {
      assert offered[i].key == PropertyKey(KeyPrefix(e), fields[i]);
    }
  }

  /** A null list of allowed assemblies matches no frame, so Enrich leaves
      the event as it is. */
  lemma NullAllowListAddsNothing(includeCallerInfo: bool, includeFileInfo: bool, prefix: Option<string>, stack: seq<Frame>, props: map<string, Value>)
    ensures var e := NewEnricher(includeCallerInfo, includeFileInfo, None, prefix);
      CallerFrame(e, stack).None? && AddAllIfAbsent(props, Offered(e, stack)) == props
  {
    var e := NewEnricher(includeCallerInfo, includeFileInfo, None, prefix);
    assert forall j :: 0 <= j < |stack| ==> !Selects(e, stack[j]);
  }

  /** After Enrich, Method and Namespace are present if they were, or if
      caller information is asked for and a frame was found; when they were
      absent they carry the frame's method name and its declaring type's full
      name. */
  lemma EnrichCaller(e: Enricher, props: map<string, Value>, stack: seq<Frame>)
    ensures var after := AddAllIfAbsent(props, Offered(e, stack));
      var found := CallerFrame(e, stack);
      var reported := e.includeCallerInfo && found.Some?;
      && (forall f :: f in {Method, Namespace} ==>
            (PropertyKey(KeyPrefix(e), f) in after <==> PropertyKey(KeyPrefix(e), f) in props || reported))
      && (reported && PropertyKey(KeyPrefix(e), Method) !in props ==>
            after[PropertyKey(KeyPrefix(e), Method)] == Str(stack[found.value].methodName))
      && (reported && PropertyKey(KeyPrefix(e), Namespace) !in props ==>
            after[PropertyKey(KeyPrefix(e), Namespace)] == Str(stack[found.value].declaringType.value.fullName))
  {
    EnrichCallerKeys(e, props, stack);
    if e.includeCallerInfo && CallerFrame(e, stack).Some? {
      EnrichCallerValues(e, props, stack);
    }
  }

  /** Method and Namespace are present after Enrich exactly when they were
      before, or caller information is asked for and a frame was found. */
  lemma EnrichCallerKeys(e: Enricher, props: map<string, Value>, stack: seq<Frame>)
    ensures forall f :: f in {Method, Namespace} ==>
      (PropertyKey(KeyPrefix(e), f) in AddAllIfAbsent(props, Offered(e, stack)) <==>
       PropertyKey(KeyPrefix(e), f) in props || (e.includeCallerInfo && CallerFrame(e, stack).Some?))
  {
    var offered := Offered(e, stack);
    forall f | f in {Method, Namespace}
      ensures PropertyKey(KeyPrefix(e), f) in AddAllIfAbsent(props, offered) <==>
              PropertyKey(KeyPrefix(e), f) in props || (e.includeCallerInfo && CallerFrame(e, stack).Some?)
    {
      OfferedLayout(e, stack);
      assert [] + offered == offered;
      AddAllIfAbsentField(props, [], offered, KeyPrefix(e), ReportedFields(e, stack), f);
    }
  }

  /** When caller information is asked for and a frame is found, Method and
      Namespace, if absent before, receive its method name and its declaring
      type's full name. */
  lemma EnrichCallerValues(e: Enricher, props: map<string, Value>, stack: seq<Frame>)
    requires e.includeCallerInfo && CallerFrame(e, stack).Some?
    ensures var after := AddAllIfAbsent(props, Offered(e, stack));
      var frame := stack[CallerFrame(e, stack).value];
      && (PropertyKey(KeyPrefix(e), Method) !in props ==>
            PropertyKey(KeyPrefix(e), Method) in after && after[PropertyKey(KeyPrefix(e), Method)] == Str(frame.methodName))
      && (PropertyKey(KeyPrefix(e), Namespace) !in props ==>
            PropertyKey(KeyPrefix(e), Namespace) in after && after[PropertyKey(KeyPrefix(e), Namespace)] == Str(frame.declaringType.value.fullName))
  {
    var offered := Offered(e, stack);
    var frame := stack[CallerFrame(e, stack).value];
    var methodKey, namespaceKey := PropertyKey(KeyPrefix(e), Method), PropertyKey(KeyPrefix(e), Namespace);
    if methodKey !in props {
      assert AddAllIfAbsent(props, offered)[methodKey] == Str(frame.methodName) by {
        OfferedKeys(e, stack);
        assert offered[0] == Property(methodKey, Str(frame.methodName));
        AddAllIfAbsentValue(props, offered, 0);
      }
    }
    if namespaceKey !in props {
      assert AddAllIfAbsent(props, offered)[namespaceKey] == Str(frame.declaringType.value.fullName) by {
        OfferedKeys(e, stack);
        assert offered[1] == Property(namespaceKey, Str(frame.declaringType.value.fullName));
        AddAllIfAbsentValue(props, offered, 1);
      }
    }
  }

  /** Whether Enrich offers file information: caller information and file
      information are asked for, a frame was found and it has a file name. */
  predicate OffersFile(e: Enricher, stack: seq<Frame>)
  {
    var found := CallerFrame(e, stack);
    e.includeCallerInfo && found.Some? && e.includeFileInfo && stack[found.value].fileName.Some?
  }

  /** SourceFile, LineNumber and ColumnNumber are offered all together or not
      at all; when absent before, they carry the file name exactly as the
      symbols give it, the line and the column of the frame found. */
  lemma EnrichFile(e: Enricher, props: map<string, Value>, stack: seq<Frame>)
    ensures var after := AddAllIfAbsent(props, Offered(e, stack));
      && (forall f :: f in {SourceFile, LineNumber, ColumnNumber} ==>
            (PropertyKey(KeyPrefix(e), f) in after <==> PropertyKey(KeyPrefix(e), f) in props || OffersFile(e, stack)))
      && (OffersFile(e, stack) ==>
            var frame := stack[CallerFrame(e, stack).value];
            && (PropertyKey(KeyPrefix(e), SourceFile) !in props ==>
                  after[PropertyKey(KeyPrefix(e), SourceFile)] == Str(PathText(frame.fileName.value)))
            && (PropertyKey(KeyPrefix(e), LineNumber) !in props ==>
                  after[PropertyKey(KeyPrefix(e), LineNumber)] == Int(frame.lineNumber))
            && (PropertyKey(KeyPrefix(e), ColumnNumber) !in props ==>
                  after[PropertyKey(KeyPrefix(e), ColumnNumber)] == Int(frame.columnNumber)))
  {
    EnrichFileKeys(e, props, stack);
    if OffersFile(e, stack) {
      EnrichFileValues(e, props, stack);
    }
  }

  /** The three file keys are present after Enrich exactly when they were
      before or the frame found carries a file name. */
  lemma EnrichFileKeys(e: Enricher, props: map<string, Value>, stack: seq<Frame>)
    ensures forall f :: f in {SourceFile, LineNumber, ColumnNumber} ==>
      (PropertyKey(KeyPrefix(e), f) in AddAllIfAbsent(props, Offered(e, stack)) <==> PropertyKey(KeyPrefix(e), f) in props || OffersFile(e, stack))
  {
    var offered := Offered(e, stack);
    forall f | f in {SourceFile, LineNumber, ColumnNumber}
      ensures PropertyKey(KeyPrefix(e), f) in AddAllIfAbsent(props, offered) <==> PropertyKey(KeyPrefix(e), f) in props || OffersFile(e, stack)
    {
      OfferedLayout(e, stack);
      assert [] + offered == offered;
      AddAllIfAbsentField(props, [], offered, KeyPrefix(e), ReportedFields(e, stack), f);
    }
  }

  /** When the frame found carries a file name, each file key that was absent
      receives the path, the line or the column of that frame. */
  lemma EnrichFileValues(e: Enricher, props: map<string, Value>, stack: seq<Frame>)
    requires OffersFile(e, stack)
    ensures var after := AddAllIfAbsent(props, Offered(e, stack));
      var frame := stack[CallerFrame(e, stack).value];
      && (PropertyKey(KeyPrefix(e), SourceFile) !in props ==>
            PropertyKey(KeyPrefix(e), SourceFile) in after && after[PropertyKey(KeyPrefix(e), SourceFile)] == Str(PathText(frame.fileName.value)))
      && (PropertyKey(KeyPrefix(e), LineNumber) !in props ==>
            PropertyKey(KeyPrefix(e), LineNumber) in after && after[PropertyKey(KeyPrefix(e), LineNumber)] == Int(frame.lineNumber))
      && (PropertyKey(KeyPrefix(e), ColumnNumber) !in props ==>
            PropertyKey(KeyPrefix(e), ColumnNumber) in after && after[PropertyKey(KeyPrefix(e), ColumnNumber)] == Int(frame.columnNumber))
  {
    var offered := Offered(e, stack);
    var frame := stack[CallerFrame(e, stack).value];
    var sourceFile, lineNumber, columnNumber := PropertyKey(KeyPrefix(e), SourceFile), PropertyKey(KeyPrefix(e), LineNumber), PropertyKey(KeyPrefix(e), ColumnNumber);
    if sourceFile !in props {
      assert AddAllIfAbsent(props, offered)[sourceFile] == Str(PathText(frame.fileName.value)) by {
        OfferedKeys(e, stack);
        assert offered[2] == Property(sourceFile, Str(PathText(frame.fileName.value)));
        AddAllIfAbsentValue(props, offered, 2);
      }
    }
    if lineNumber !in props {
      assert AddAllIfAbsent(props, offered)[lineNumber] == Int(frame.lineNumber) by {
        OfferedKeys(e, stack);
        assert offered[3] == Property(lineNumber, Int(frame.lineNumber));
        AddAllIfAbsentValue(props, offered, 3);
      }
    }
    if columnNumber !in props {
      assert AddAllIfAbsent(props, offered)[columnNumber] == Int(frame.columnNumber) by {
        OfferedKeys(e, stack);
        assert offered[4] == Property(columnNumber, Int(frame.columnNumber));
        AddAllIfAbsentValue(props, offered, 4);
      }
    }
  }


  /** After Enrich every property the event had keeps its value, and a key
      that is not a prefixed field key is present exactly when it was before. */
  lemma EnrichAddsIfAbsent(e: Enricher, props: map<string, Value>, stack: seq<Frame>)
    ensures var after := AddAllIfAbsent(props, Offered(e, stack));
      && (forall k :: k in props ==> k in after && after[k] == props[k])
      && (forall k :: (forall f :: k != PropertyKey(KeyPrefix(e), f)) ==> (k in after <==> k in props))
  {
    OfferedKeys(e, stack);
    AddAllIfAbsentKeeps(props, Offered(e, stack));
  }

  /** With the default prefix the caller is written under pm4net_Method and
      pm4net_Namespace. */
  lemma DefaultPrefixKeys(includeFileInfo: bool, allowedAssemblies: Option<seq<string>>, props: map<string, Value>, stack: seq<Frame>)
    ensures var e := NewEnricher(true, includeFileInfo, allowedAssemblies, Some(DefaultPrefix));
      var after := AddAllIfAbsent(props, Offered(e, stack));
      var found := CallerFrame(e, stack);
      found.Some? && "pm4net_Method" !in props && "pm4net_Namespace" !in props ==>
        && "pm4net_Method" in after && after["pm4net_Method"] == Str(stack[found.value].methodName)
        && "pm4net_Namespace" in after && after["pm4net_Namespace"] == Str(stack[found.value].declaringType.value.fullName)
  {
    var e := NewEnricher(true, includeFileInfo, allowedAssemblies, Some(DefaultPrefix));
    assert PropertyKey(KeyPrefix(e), Method) == "pm4net_Method";
    assert PropertyKey(KeyPrefix(e), Namespace) == "pm4net_Namespace";
    EnrichCaller(e, props, stack);
  }
}
