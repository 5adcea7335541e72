/** Stack frames as the enrichers see them. Capturing the stack and resolving
    symbols is done by the host; here a frame is a plain record of what the
    enrichers read from it. */
module StackFrames {
  import opened Common
  import opened Paths

  /** A method's declaring type: the simple name of its assembly and its full name. */
  datatype TypeInfo = TypeInfo(assemblyName: string, fullName: string)

  /** One frame: whether it has a method, the method's declaring type (which
      may be null), the method's name, and the symbol information (file name,
      line and column) when it is available. */
  datatype Frame = Frame(
    hasMethod: bool,
    declaringType: Option<TypeInfo>,
    methodName: string,
    fileName: Option<FilePath>,
    lineNumber: int,
    columnNumber: int)

  /** FirstOrDefault over a stack, innermost frame first: the index of the
      first frame satisfying `p`, or None when no frame does. */
  function FirstWhere(frames: seq<Frame>, p: Frame -> bool): (r: Option<nat>)
    ensures r.Some? ==> r.value < |frames| && p(frames[r.value])
    ensures r.Some? ==> forall j :: 0 <= j < r.value ==> !p(frames[j])
    ensures r.None? <==> forall j :: 0 <= j < |frames| ==> !p(frames[j])
  {
    if frames == [] then None
    else if p(frames[0]) then Some(0)
    else match FirstWhere(frames[1..], p)
      case None => None
      case Some(i) => Some(i + 1)
  }
}
