/** The caller-info enricher (Serilog.Enrichers.CallerInfo/Enricher.cs): picks
    the first stack frame whose method belongs to an allowed assembly and adds
    its method name, declaring type and, optionally, a depth-limited source
    file with line and column to the log event, under prefixed keys and
    without overwriting properties the event already has. */
module CallerInfoEnricher {
  import opened Common
  import opened Paths
  import opened LogEvents
  import opened StackFrames

  /** The unprefixed marker property that records the key prefix in use. */
  const PrefixPropertyName: string := "Serilog.Enrichers.CallerInfo_Prefix"

  /** The enricher's configuration, fixed at construction. `allowedAssemblies`
      is the content of an immutable hash set compared with OrdinalIgnoreCase. */
  datatype Enricher = Enricher(
    includeFileInfo: bool,
    filePathDepth: int,
    allowedAssemblies: set<string>,
    prefix: string)

  /** The constructor: a null prefix is stored as the empty prefix. */
  function NewEnricher(includeFileInfo: bool, allowedAssemblies: set<string>, prefix: Option<string>, filePathDepth: int): (e: Enricher)
    ensures prefix.None? ==> e.prefix == ""
    ensures prefix.Some? ==> e.prefix == prefix.value
    ensures e.includeFileInfo == includeFileInfo && e.filePathDepth == filePathDepth
    ensures e.allowedAssemblies == allowedAssemblies
  {
    Enricher(includeFileInfo, filePathDepth, allowedAssemblies, prefix.GetOr(""))
  }

  /** Extensions.IsInAllowedAssembly: false for a method without a declaring
      type, otherwise whether the type's assembly is in the allowed set. */
  predicate IsInAllowedAssembly(f: Frame, allowedAssemblies: set<string>)
  {
    f.declaringType.Some? && ContainsIgnoreCase(allowedAssemblies, f.declaringType.value.assemblyName)
  }

  /** A method without a declaring type is never allowed, nor is any method
      by an empty set; an assembly whose name is in the set is allowed. */
  lemma AllowedAssemblyCases(f: Frame, allowedAssemblies: set<string>)
    ensures f.declaringType.None? ==> !IsInAllowedAssembly(f, allowedAssemblies)
    ensures allowedAssemblies == {} ==> !IsInAllowedAssembly(f, allowedAssemblies)
    ensures f.declaringType.Some? && f.declaringType.value.assemblyName in allowedAssemblies ==>
              IsInAllowedAssembly(f, allowedAssemblies)
  {
  }

  /** The set compares names ignoring case: two assemblies whose names differ
      only in case are both allowed or both not. */
  lemma AllowedAssemblyIgnoresCase(f: Frame, g: Frame, allowedAssemblies: set<string>)
    requires f.declaringType.Some? && g.declaringType.Some?
    requires EqualsIgnoreCase(f.declaringType.value.assemblyName, g.declaringType.value.assemblyName)
    ensures IsInAllowedAssembly(f, allowedAssemblies) <==> IsInAllowedAssembly(g, allowedAssemblies)
  {
    var a, b := f.declaringType.value.assemblyName, g.declaringType.value.assemblyName;
    if IsInAllowedAssembly(f, allowedAssemblies) {
      var n :| n in allowedAssemblies && EqualsIgnoreCase(n, a);
      assert EqualsIgnoreCase(n, b);
    }
    if IsInAllowedAssembly(g, allowedAssemblies) {
      var n :| n in allowedAssemblies && EqualsIgnoreCase(n, b);
      assert EqualsIgnoreCase(n, a);
    }
  }

  /** The predicate given to FirstOrDefault. */
  predicate Selects(e: Enricher, f: Frame)
  {
    f.hasMethod && IsInAllowedAssembly(f, e.allowedAssemblies)
  }

  /** The index of the frame the enricher reports, if any. */
  function CallerFrame(e: Enricher, stack: seq<Frame>): Option<nat>
  {
    FirstWhere(stack, f => Selects(e, f))
  }

  // ---------------------------------------------------------------------------
  // File-path depth truncation (GetCleanFileName)

  /** How many enclosing directories of a file are kept: trailing segments of
      `dirs`, at most `limit` of them, stopping before the first blank one. */
  function KeptDirectories(dirs: FilePath, limit: int): (k: nat)
    ensures k <= |dirs|
    ensures limit <= 0 ==> k == 0
    ensures limit > 0 ==> k <= limit
    ensures forall i :: |dirs| - k <= i < |dirs| ==> !IsWhiteSpace(dirs[i])
  {
    if limit <= 0 || dirs == [] || IsWhiteSpace(dirs[|dirs| - 1]) then 0
    else 1 + KeptDirectories(dirs[..|dirs| - 1], limit - 1)
  }

  /** What GetCleanFileName returns: nothing for a null or blank path, the path
      itself for a depth of zero or less, and otherwise the file name preceded
      by the kept enclosing directories, outermost first. */
  function CleanFileName(fullFileName: Option<FilePath>, depth: int): (r: Option<FilePath>)
    ensures r.None? <==> fullFileName.None? || IsWhiteSpace(PathText(fullFileName.value))
    ensures r.Some? ==> r.value != []
  {
    if fullFileName.None? || IsWhiteSpace(PathText(fullFileName.value)) then None
    else if depth <= 0 then fullFileName
    else
      var p := fullFileName.value;
      var k := 1 + KeptDirectories(DirectoryName(p), depth - 1);
      Some(p[|p| - k..])
  }

  method GetCleanFileName(fullFileName: Option<FilePath>, depth: int) returns (r: Option<FilePath>)
    ensures r == CleanFileName(fullFileName, depth)
  {
    if fullFileName.None? || IsWhiteSpace(PathText(fullFileName.value)) {
      return None;
    }
    if depth <= 0 {
      return fullFileName;
    }
    var full := fullFileName.value;
    var fileName := FileName(full);
    var dirName := DirectoryName(full);
    if IsWhiteSpace(PathText(dirName)) {
      assert CleanFileName(fullFileName, depth) == Some([fileName]) by {
        PathTextBlank(dirName);
        assert full[|full| - 1..] == [fileName];
      }
      return Some([fileName]);
    }
    var pathSegments := [fileName];
    ghost var kept := KeptDirectories(dirName, depth - 1);
    var i := 0;
    while i < depth - 1
      invariant 0 <= i <= depth - 1 && i < |full|
      invariant dirName == full[..|full| - 1 - i]
      invariant Reversed(pathSegments) == full[|full| - 1 - i..]
      invariant kept == i + KeptDirectories(full[..|full| - 1 - i], depth - 1 - i)
    {
      var parentDirName := FileName(dirName);
      if IsWhiteSpace(parentDirName) {
        break;
      }
      assert && i + 1 < |full|
             && Reversed(pathSegments + [parentDirName]) == full[|full| - 1 - (i + 1)..]
             && DirectoryName(dirName) == full[..|full| - 1 - (i + 1)]
             && kept == (i + 1) + KeptDirectories(full[..|full| - 1 - (i + 1)], depth - 1 - (i + 1)) by {
        CleanFileNameStep(full, i, depth, pathSegments);
      }
      pathSegments := pathSegments + [parentDirName];
      dirName := DirectoryName(dirName);
      i := i + 1;
    }
    CleanFileNameDone(full, depth, i, pathSegments);
    pathSegments := Reversed(pathSegments);
    return Some(pathSegments);
  }

  /** One iteration of GetCleanFileName's loop that does not break: the
      parent directory's name is the next segment of the path, outwards. */
  lemma CleanFileNameStep(full: FilePath, i: nat, depth: int, segments: seq<string>)
    requires i < depth - 1 && i < |full|
    requires Reversed(segments) == full[|full| - 1 - i..]
    requires !IsWhiteSpace(FileName(full[..|full| - 1 - i]))
    ensures i + 1 < |full|
    ensures Reversed(segments + [FileName(full[..|full| - 1 - i])]) == full[|full| - 1 - (i + 1)..]
    ensures DirectoryName(full[..|full| - 1 - i]) == full[..|full| - 1 - (i + 1)]
    ensures KeptDirectories(full[..|full| - 1 - i], depth - 1 - i) == 1 + KeptDirectories(full[..|full| - 1 - (i + 1)], depth - 1 - (i + 1))
  {
    var dirName := full[..|full| - 1 - i];
    var parent := FileName(dirName);
    assert dirName != [];
    ReversedAppend(segments, parent);
    assert full[|full| - 2 - i..] == [parent] + full[|full| - 1 - i..];
    assert DirectoryName(dirName) == full[..|full| - 2 - i];
  }

  /** When GetCleanFileName's loop ends, at the depth limit or at a blank
      parent directory, the segments collected are the cleaned name. */
  lemma CleanFileNameDone(full: FilePath, depth: int, i: nat, segments: seq<string>)
    requires depth > 0 && !IsWhiteSpace(PathText(full))
    requires i <= depth - 1 && i < |full|
    requires Reversed(segments) == full[|full| - 1 - i..]
    requires KeptDirectories(DirectoryName(full), depth - 1) == i + KeptDirectories(full[..|full| - 1 - i], depth - 1 - i)
    requires i == depth - 1 || IsWhiteSpace(FileName(full[..|full| - 1 - i]))
    ensures CleanFileName(Some(full), depth) == Some(Reversed(segments))
  {
    assert KeptDirectories(full[..|full| - 1 - i], depth - 1 - i) == 0;
    assert 1 + KeptDirectories(DirectoryName(full), depth - 1) == i + 1;
    assert CleanFileName(Some(full), depth) == Some(full[|full| - (i + 1)..]);
  }

  /** For a positive depth the cleaned name keeps between one and `depth`
      segments: the file name last, preceded by the directories that enclose
      it, consecutive and outermost first, none of them blank. */
  lemma CleanFileNameBounds(fullFileName: Option<FilePath>, depth: int)
    requires depth > 0 && CleanFileName(fullFileName, depth).Some?
    ensures var p, r := fullFileName.value, CleanFileName(fullFileName, depth).value;
      && 1 <= |r| <= depth && |r| <= |p|
      && r == p[|p| - |r|..]
      && r[|r| - 1] == FileName(p)
      && forall i :: 0 <= i < |r| - 1 ==> !IsWhiteSpace(r[i])
  {
    var p := fullFileName.value;
    PathTextBlank(p);
    var dirs := DirectoryName(p);
    var k := KeptDirectories(dirs, depth - 1);
    var r := CleanFileName(fullFileName, depth).value;
    assert r == p[|p| - 1 - k..];
    forall i | 0 <= i < |r| - 1 ensures !IsWhiteSpace(r[i]) {
      assert r[i] == dirs[|dirs| - k + i];
    }
  }

  /** When no directory on the way is blank, exactly `min(limit, |dirs|)`
      directories are kept. */
  lemma {:induction false} KeptDirectoriesAll(dirs: FilePath, limit: int)
    requires limit >= 0
    requires forall i :: 0 <= i < |dirs| ==> !IsWhiteSpace(dirs[i])
    ensures KeptDirectories(dirs, limit) == if limit < |dirs| then limit else |dirs|
  {
    if limit > 0 && dirs != [] {
      KeptDirectoriesAll(dirs[..|dirs| - 1], limit - 1);
    }
  }

  /** For a path none of whose segments is blank, a positive depth keeps
      exactly the last `depth` segments, or the whole path if it is shorter. */
  lemma CleanFileNameLastSegments(p: FilePath, depth: int)
    requires depth > 0 && p != []
    requires forall i :: 0 <= i < |p| ==> !IsWhiteSpace(p[i])
    ensures CleanFileName(Some(p), depth) == Some(p[|p| - (if depth < |p| then depth else |p|)..])
  {
    PathTextBlank(p);
    var dirs := DirectoryName(p);
    assert forall i :: 0 <= i < |dirs| ==> dirs[i] == p[i];
    KeptDirectoriesAll(dirs, depth - 1);
  }

  /** The edge cases: a null or blank path gives no file name, a depth of zero
      or less leaves the path as it is, and a bare file name stays bare. */
  lemma CleanFileNameEdgeCases(fullFileName: Option<FilePath>, depth: int)
    ensures fullFileName.None? ==> CleanFileName(fullFileName, depth).None?
    ensures fullFileName.Some? && IsWhiteSpace(PathText(fullFileName.value)) ==> CleanFileName(fullFileName, depth).None?
    ensures fullFileName.Some? && !IsWhiteSpace(PathText(fullFileName.value)) && depth <= 0 ==>
              CleanFileName(fullFileName, depth) == fullFileName
    ensures fullFileName.Some? && |fullFileName.value| == 1 && !IsWhiteSpace(fullFileName.value[0]) ==>
              CleanFileName(fullFileName, depth) == fullFileName
  {
  }

  // ---------------------------------------------------------------------------
  // The properties an Enrich call adds

  /** The marker and the five prefixed keys are six different keys: the
      marker ends in 'x' and no field name does. */
  lemma KeysDistinct(prefix: string)
    ensures forall f :: PropertyKey(prefix, f) != PrefixPropertyName
    ensures forall f, g :: f != g ==> PropertyKey(prefix, f) != PropertyKey(prefix, g)
  {
    forall f ensures PropertyKey(prefix, f) != PrefixPropertyName {
      PropertyKeyLastChar(prefix, f);
      assert PrefixPropertyName[|PrefixPropertyName| - 1] == 'x';
    }
    forall f, g | f != g ensures PropertyKey(prefix, f) != PropertyKey(prefix, g) {
      if PropertyKey(prefix, f) == PropertyKey(prefix, g) {
        PropertyKeyInjective(prefix, f, g);
      }
    }
  }

  /** The marker property, offered when the prefix is not blank. */
  function MarkerOffered(e: Enricher): seq<Property>
  {
    if IsWhiteSpace(e.prefix) then [] else [Property(PrefixPropertyName, Str(e.prefix))]
  }

  /** Method and Namespace of the frame found. */
  function CallerOffered(e: Enricher, frame: Frame): seq<Property>
    requires frame.declaringType.Some?
  {
    [Property(PropertyKey(e.prefix, Method), Str(frame.methodName)),
     Property(PropertyKey(e.prefix, Namespace), Str(frame.declaringType.value.fullName))]
  }

  /** SourceFile, LineNumber and ColumnNumber of the frame found, offered when
      file information is asked for and the cleaned file name is not null. */
  function FileOffered(e: Enricher, frame: Frame): seq<Property>
  {
    var file := if e.includeFileInfo then CleanFileName(frame.fileName, e.filePathDepth) else None;
    if file.None? then []
    else [Property(PropertyKey(e.prefix, SourceFile), Str(PathText(file.value))),
          Property(PropertyKey(e.prefix, LineNumber), Int(frame.lineNumber)),
          Property(PropertyKey(e.prefix, ColumnNumber), Int(frame.columnNumber))]
  }

  /** The AddPropertyIfAbsent calls one Enrich call makes, in order. */
  function Offered(e: Enricher, stack: seq<Frame>): seq<Property>
  {
    match CallerFrame(e, stack)
    case None => MarkerOffered(e)
    case Some(i) =>
      if stack[i].declaringType.None? then MarkerOffered(e)
      else MarkerOffered(e) + CallerOffered(e, stack[i]) + FileOffered(e, stack[i])
  }

  method Enrich(e: Enricher, logEvent: LogEvent, stack: seq<Frame>)
    modifies logEvent
    ensures logEvent.properties == AddAllIfAbsent(old(logEvent.properties), Offered(e, stack))
  {
    ghost var props := logEvent.properties;
    var frame := CallerFrame(e, stack);

    if !IsWhiteSpace(e.prefix) {
      var marker := Property(PrefixPropertyName, Str(e.prefix));
      logEvent.AddPropertyIfAbsent(marker);
      AddAllIfAbsentOne(props, marker);
    }
    assert logEvent.properties == AddAllIfAbsent(props, MarkerOffered(e));

    if frame.Some? && stack[frame.value].declaringType.Some? {
      var f := stack[frame.value];
      var declaringType := f.declaringType.value;
      var methodProperty := Property(PropertyKey(e.prefix, Method), Str(f.methodName));
      var namespaceProperty := Property(PropertyKey(e.prefix, Namespace), Str(declaringType.fullName));
      logEvent.AddPropertyIfAbsent(methodProperty);
      logEvent.AddPropertyIfAbsent(namespaceProperty);
      AddAllIfAbsentPair(props, MarkerOffered(e), methodProperty, namespaceProperty);
      ghost var caller := MarkerOffered(e) + CallerOffered(e, f);
      assert logEvent.properties == AddAllIfAbsent(props, caller);
      if e.includeFileInfo {
        var fileName := GetCleanFileName(f.fileName, e.filePathDepth);
        if fileName.Some? {
          var sourceFile := Property(PropertyKey(e.prefix, SourceFile), Str(PathText(fileName.value)));
          var lineNumber := Property(PropertyKey(e.prefix, LineNumber), Int(f.lineNumber));
          var columnNumber := Property(PropertyKey(e.prefix, ColumnNumber), Int(f.columnNumber));
          logEvent.AddPropertyIfAbsent(sourceFile);
          logEvent.AddPropertyIfAbsent(lineNumber);
          logEvent.AddPropertyIfAbsent(columnNumber);
          AddAllIfAbsentTriple(props, caller, sourceFile, lineNumber, columnNumber);
        }
      }
      if FileOffered(e, f) == [] {
        assert caller + FileOffered(e, f) == caller;
      }
      assert caller + FileOffered(e, f) == Offered(e, stack);
    }
  }

  /** The frame reported is the first, innermost, frame that has a method and
      whose declaring type is in an allowed assembly, compared ignoring case;
      when there is none, no frame is reported. */
  lemma CallerFrameIsFirst(e: Enricher, stack: seq<Frame>)
    ensures match CallerFrame(e, stack)
      case Some(i) =>
        && i < |stack| && stack[i].hasMethod && stack[i].declaringType.Some?
        && ContainsIgnoreCase(e.allowedAssemblies, stack[i].declaringType.value.assemblyName)
        && forall j :: 0 <= j < i ==> !Selects(e, stack[j])
      case None =>
        forall j :: 0 <= j < |stack| ==> !Selects(e, stack[j])
  {
  }

  /** Method and Namespace, then the file properties if any: distinct keys,
      none of them the marker. */
  lemma CallerFileKeys(e: Enricher, frame: Frame)
    requires frame.declaringType.Some?
    ensures KeysAre(CallerOffered(e, frame) + FileOffered(e, frame), e.prefix, CallerFields(FileOffered(e, frame) != []))
    ensures DistinctKeys(CallerOffered(e, frame) + FileOffered(e, frame))
    ensures forall i :: 0 <= i < |CallerOffered(e, frame) + FileOffered(e, frame)| ==>
              (CallerOffered(e, frame) + FileOffered(e, frame))[i].key != PrefixPropertyName
  {
    var rest := CallerOffered(e, frame) + FileOffered(e, frame);
    var fields := CallerFields(FileOffered(e, frame) != []);
    assert KeysAre(rest, e.prefix, fields);
    CallerFieldsDistinct(FileOffered(e, frame) != []);
    KeysAreDistinct(rest, e.prefix, fields);
    KeysAreNotMarker(rest, e.prefix, fields);
  }

  /** No prefixed field key is the marker. */
  lemma KeysAreNotMarker(offered: seq<Property>, prefix: string, fields: seq<Field>)
    requires KeysAre(offered, prefix, fields)
    ensures forall i :: 0 <= i < |offered| ==> offered[i].key != PrefixPropertyName
  {
    KeysDistinct(prefix);
  }

  /** No key is offered twice. */
  lemma OfferedKeysDistinct(e: Enricher, stack: seq<Frame>)
    ensures DistinctKeys(Offered(e, stack))
  {
    var all, marker := Offered(e, stack), MarkerOffered(e);
    var found := CallerFrame(e, stack);
    OfferedLayout(e, stack);
    if found.Some? {
      CallerFieldsDistinct(FileOffered(e, stack[found.value]) != []);
    }
    KeysAreDistinct(all[|marker|..], e.prefix, ReportedFields(e, stack));
    DistinctKeysAppend(marker, all[|marker|..]);
  }

  /** Every key offered is the marker or one of the prefixed field keys. */
  lemma OfferedKeysKnown(e: Enricher, stack: seq<Frame>)
    ensures forall i :: 0 <= i < |Offered(e, stack)| ==>
              Offered(e, stack)[i].key == PrefixPropertyName || exists f :: Offered(e, stack)[i].key == PropertyKey(e.prefix, f)
  {
    var all, marker := Offered(e, stack), MarkerOffered(e);
    OfferedLayout(e, stack);
    forall i | 0 <= i < |all|
      ensures all[i].key == PrefixPropertyName || exists f :: all[i].key == PropertyKey(e.prefix, f)
    {
      if i < |marker| {
        assert all[i] == marker[i];
      } else {
        assert all[i] == all[|marker|..][i - |marker|];
        assert all[i].key == PropertyKey(e.prefix, ReportedFields(e, stack)[i - |marker|]);
      }
    }
  }

  /** The fields Enrich writes after the marker: none without a frame, else
      Method and Namespace, then the file fields when the file is offered. */
  function ReportedFields(e: Enricher, stack: seq<Frame>): (fields: seq<Field>)
    ensures Method in fields <==> CallerFrame(e, stack).Some?
    ensures Namespace in fields <==> CallerFrame(e, stack).Some?
    ensures SourceFile in fields <==> OffersFile(e, stack)
    ensures LineNumber in fields <==> OffersFile(e, stack)
    ensures ColumnNumber in fields <==> OffersFile(e, stack)
  {
    match CallerFrame(e, stack)
    case None => []
    case Some(i) => CallerFields(FileOffered(e, stack[i]) != [])
  }

  /** The offers of one Enrich call: the marker offers, then offers keyed by
      the reported fields, in order. */
  lemma OfferedLayout(e: Enricher, stack: seq<Frame>)
    ensures |MarkerOffered(e)| <= |Offered(e, stack)|
    ensures Offered(e, stack) == MarkerOffered(e) + Offered(e, stack)[|MarkerOffered(e)|..]
    ensures KeysAre(Offered(e, stack)[|MarkerOffered(e)|..], e.prefix, ReportedFields(e, stack))
    ensures forall i, f :: 0 <= i < |MarkerOffered(e)| ==> MarkerOffered(e)[i].key != PropertyKey(e.prefix, f)
  {
    var found := CallerFrame(e, stack);
    var marker := MarkerOffered(e);
    KeysDistinct(e.prefix);
    if found.Some? {
      var frame := stack[found.value];
      CallerFileKeys(e, frame);
      assert marker + CallerOffered(e, frame) + FileOffered(e, frame) == marker + (CallerOffered(e, frame) + FileOffered(e, frame));
      assert Offered(e, stack)[|marker|..] == CallerOffered(e, frame) + FileOffered(e, frame);
    } else {
      assert Offered(e, stack)[|marker|..] == [];
    }
  }

  /** After Enrich the marker is present if it was, or if the prefix is not
      blank, whether or not a frame was found; when it was absent it now
      carries the prefix. */
  lemma EnrichMarker(e: Enricher, props: map<string, Value>, stack: seq<Frame>)
    ensures var after := AddAllIfAbsent(props, Offered(e, stack));
      && (PrefixPropertyName in after <==> PrefixPropertyName in props || !IsWhiteSpace(e.prefix))
      && (PrefixPropertyName !in props && !IsWhiteSpace(e.prefix) ==> after[PrefixPropertyName] == Str(e.prefix))
  {
    var offered := Offered(e, stack);
    AddAllIfAbsentKeeps(props, offered);
    if IsWhiteSpace(e.prefix) {
      MarkerNotOffered(e, stack);
      AddAllIfAbsentOnly(props, offered, PrefixPropertyName);
    } else if PrefixPropertyName !in props {
      assert offered[0] == Property(PrefixPropertyName, Str(e.prefix));
      OfferedKeysDistinct(e, stack);
      AddAllIfAbsentValue(props, offered, 0);
    }
  }

  /** With a blank prefix the marker key is never offered. */
  lemma MarkerNotOffered(e: Enricher, stack: seq<Frame>)
    requires IsWhiteSpace(e.prefix)
    ensures forall i :: 0 <= i < |Offered(e, stack)| ==> Offered(e, stack)[i].key != PrefixPropertyName
  {
    var found := CallerFrame(e, stack);
    if found.Some? && stack[found.value].declaringType.Some? {
      var frame := stack[found.value];
      CallerFileKeys(e, frame);
      assert Offered(e, stack) == CallerOffered(e, frame) + FileOffered(e, frame);
    }
  }

  /** After Enrich, Method and Namespace are present if they were or if a frame
      was found; when they were absent they carry the frame's method name and
      its declaring type's full name. */
  lemma EnrichCaller(e: Enricher, props: map<string, Value>, stack: seq<Frame>)
    ensures var after := AddAllIfAbsent(props, Offered(e, stack));
      var found := CallerFrame(e, stack);
      && (forall f :: f in {Method, Namespace} ==>
            (PropertyKey(e.prefix, f) in after <==> PropertyKey(e.prefix, f) in props || found.Some?))
      && (found.Some? && PropertyKey(e.prefix, Method) !in props ==>
            after[PropertyKey(e.prefix, Method)] == Str(stack[found.value].methodName))
      && (found.Some? && PropertyKey(e.prefix, Namespace) !in props ==>
            after[PropertyKey(e.prefix, Namespace)] == Str(stack[found.value].declaringType.value.fullName))
  {
    EnrichCallerKeys(e, props, stack);
    if CallerFrame(e, stack).Some? {
      EnrichCallerValues(e, props, stack);
    }
  }

  /** Method and Namespace are present after Enrich exactly when they were
      before or a frame was found. */
  lemma EnrichCallerKeys(e: Enricher, props: map<string, Value>, stack: seq<Frame>)
    ensures forall f :: f in {Method, Namespace} ==>
      (PropertyKey(e.prefix, f) in AddAllIfAbsent(props, Offered(e, stack)) <==> PropertyKey(e.prefix, f) in props || CallerFrame(e, stack).Some?)
  {
    var offered := Offered(e, stack);
    var marker := MarkerOffered(e);
    forall f | f in {Method, Namespace}
      ensures PropertyKey(e.prefix, f) in AddAllIfAbsent(props, offered) <==> PropertyKey(e.prefix, f) in props || CallerFrame(e, stack).Some?
    {
      OfferedLayout(e, stack);
      AddAllIfAbsentField(props, marker, offered[|marker|..], e.prefix, ReportedFields(e, stack), f);
    }
  }

  /** When a frame is found, Method and Namespace, if absent before, receive
      its method name and its declaring type's full name. */
  lemma EnrichCallerValues(e: Enricher, props: map<string, Value>, stack: seq<Frame>)
    requires CallerFrame(e, stack).Some?
    ensures var after := AddAllIfAbsent(props, Offered(e, stack));
      var frame := stack[CallerFrame(e, stack).value];
      && (PropertyKey(e.prefix, Method) !in props ==>
            PropertyKey(e.prefix, Method) in after && after[PropertyKey(e.prefix, Method)] == Str(frame.methodName))
      && (PropertyKey(e.prefix, Namespace) !in props ==>
            PropertyKey(e.prefix, Namespace) in after && after[PropertyKey(e.prefix, Namespace)] == Str(frame.declaringType.value.fullName))
  {
    var offered := Offered(e, stack);
    var marker := MarkerOffered(e);
    CallerOffersAt(e, stack);
    if PropertyKey(e.prefix, Method) !in props {
      AddAllIfAbsentValue(props, offered, |marker|);
    }
    if PropertyKey(e.prefix, Namespace) !in props {
      AddAllIfAbsentValue(props, offered, |marker| + 1);
    }
  }

  /** When a frame is found, the two offers after the marker are Method and
      Namespace, and no key is offered twice. */
  lemma CallerOffersAt(e: Enricher, stack: seq<Frame>)
    requires CallerFrame(e, stack).Some?
    ensures var offered, m := Offered(e, stack), |MarkerOffered(e)|;
      var frame := stack[CallerFrame(e, stack).value];
      && frame.declaringType.Some?
      && DistinctKeys(offered)
      && m + 1 < |offered|
      && offered[m] == Property(PropertyKey(e.prefix, Method), Str(frame.methodName))
      && offered[m + 1] == Property(PropertyKey(e.prefix, Namespace), Str(frame.declaringType.value.fullName))
  {
    var marker := MarkerOffered(e);
    var frame := stack[CallerFrame(e, stack).value];
    OfferedKeysDistinct(e, stack);
    assert marker + CallerOffered(e, frame) + FileOffered(e, frame) == marker + (CallerOffered(e, frame) + FileOffered(e, frame));
  }

  /** Whether Enrich offers file information: a frame was found, file
      information is asked for, and the cleaned file name is not null. */
  predicate OffersFile(e: Enricher, stack: seq<Frame>)
  {
    var found := CallerFrame(e, stack);
    found.Some? && e.includeFileInfo && CleanFileName(stack[found.value].fileName, e.filePathDepth).Some?
  }

  /** SourceFile, LineNumber and ColumnNumber are offered all together or not
      at all; when absent before, they carry the cleaned file name, the line
      and the column of the frame found. */
  lemma EnrichFile(e: Enricher, props: map<string, Value>, stack: seq<Frame>)
    ensures var after := AddAllIfAbsent(props, Offered(e, stack));
      && (forall f :: f in {SourceFile, LineNumber, ColumnNumber} ==>
            (PropertyKey(e.prefix, f) in after <==> PropertyKey(e.prefix, f) in props || OffersFile(e, stack)))
      && (OffersFile(e, stack) ==>
            var frame := stack[CallerFrame(e, stack).value];
            && (PropertyKey(e.prefix, SourceFile) !in props ==>
                  after[PropertyKey(e.prefix, SourceFile)] == Str(PathText(CleanFileName(frame.fileName, e.filePathDepth).value)))
            && (PropertyKey(e.prefix, LineNumber) !in props ==>
                  after[PropertyKey(e.prefix, LineNumber)] == Int(frame.lineNumber))
            && (PropertyKey(e.prefix, ColumnNumber) !in props ==>
                  after[PropertyKey(e.prefix, ColumnNumber)] == Int(frame.columnNumber)))
  {
    EnrichFileKeys(e, props, stack);
    if OffersFile(e, stack) {
      EnrichFileValues(e, props, stack);
    }
  }

  /** The three file keys are present after Enrich exactly when they were
      before or the frame found carries a file name. */
  lemma EnrichFileKeys(e: Enricher, props: map<string, Value>, stack: seq<Frame>)
    ensures forall f :: f in {SourceFile, LineNumber, ColumnNumber} ==>
      (PropertyKey(e.prefix, f) in AddAllIfAbsent(props, Offered(e, stack)) <==> PropertyKey(e.prefix, f) in props || OffersFile(e, stack))
  {
    var offered := Offered(e, stack);
    var marker := MarkerOffered(e);
    forall f | f in {SourceFile, LineNumber, ColumnNumber}
      ensures PropertyKey(e.prefix, f) in AddAllIfAbsent(props, offered) <==> PropertyKey(e.prefix, f) in props || OffersFile(e, stack)
    {
      OfferedLayout(e, stack);
      AddAllIfAbsentField(props, marker, offered[|marker|..], e.prefix, ReportedFields(e, stack), f);
    }
  }

  /** When the frame found carries a file name, each file key that was absent
      receives the cleaned path, the line or the column of that frame. */
  lemma EnrichFileValues(e: Enricher, props: map<string, Value>, stack: seq<Frame>)
    requires OffersFile(e, stack)
    ensures var after := AddAllIfAbsent(props, Offered(e, stack));
      var frame := stack[CallerFrame(e, stack).value];
      && (PropertyKey(e.prefix, SourceFile) !in props ==>
            PropertyKey(e.prefix, SourceFile) in after && after[PropertyKey(e.prefix, SourceFile)] == Str(PathText(CleanFileName(frame.fileName, e.filePathDepth).value)))
      && (PropertyKey(e.prefix, LineNumber) !in props ==>
            PropertyKey(e.prefix, LineNumber) in after && after[PropertyKey(e.prefix, LineNumber)] == Int(frame.lineNumber))
      && (PropertyKey(e.prefix, ColumnNumber) !in props ==>
            PropertyKey(e.prefix, ColumnNumber) in after && after[PropertyKey(e.prefix, ColumnNumber)] == Int(frame.columnNumber))
  {
    var offered := Offered(e, stack);
    var marker := MarkerOffered(e);
    var frame := stack[CallerFrame(e, stack).value];
    var file := CleanFileName(frame.fileName, e.filePathDepth).value;
    FileOffersAt(e, stack);
    if PropertyKey(e.prefix, SourceFile) !in props {
      AddAllIfAbsentValue(props, offered, |marker| + 2);
    }
    if PropertyKey(e.prefix, LineNumber) !in props {
      AddAllIfAbsentValue(props, offered, |marker| + 3);
    }
    if PropertyKey(e.prefix, ColumnNumber) !in props {
      AddAllIfAbsentValue(props, offered, |marker| + 4);
    }
  }

  /** When the frame found carries a file name, the offers after the marker
      and the caller offers are SourceFile, LineNumber and ColumnNumber, and
      no key is offered twice. */
  lemma FileOffersAt(e: Enricher, stack: seq<Frame>)
    requires OffersFile(e, stack)
    ensures var offered, m := Offered(e, stack), |MarkerOffered(e)|;
      var frame := stack[CallerFrame(e, stack).value];
      && DistinctKeys(offered)
      && m + 4 < |offered|
      && offered[m + 2] == Property(PropertyKey(e.prefix, SourceFile), Str(PathText(CleanFileName(frame.fileName, e.filePathDepth).value)))
      && offered[m + 3] == Property(PropertyKey(e.prefix, LineNumber), Int(frame.lineNumber))
      && offered[m + 4] == Property(PropertyKey(e.prefix, ColumnNumber), Int(frame.columnNumber))
  {
    var marker := MarkerOffered(e);
    var frame := stack[CallerFrame(e, stack).value];
    OfferedKeysDistinct(e, stack);
    assert marker + CallerOffered(e, frame) + FileOffered(e, frame) == marker + (CallerOffered(e, frame) + FileOffered(e, frame));
  }

  /** After Enrich every property the event had keeps its value, and a key
      that is neither the marker nor a prefixed field key is present exactly
      when it was before. */
  lemma EnrichAddsIfAbsent(e: Enricher, props: map<string, Value>, stack: seq<Frame>)
    ensures var after := AddAllIfAbsent(props, Offered(e, stack));
      && (forall k :: k in props ==> k in after && after[k] == props[k])
      && (forall k :: k != PrefixPropertyName && (forall f :: k != PropertyKey(e.prefix, f)) ==>
            (k in after <==> k in props))
  {
    OfferedKeysKnown(e, stack);
    AddAllIfAbsentKeeps(props, Offered(e, stack));
  }
}
