/** LoadShaders: choosing a shader stage from a file name and building the
    path "shaders/<name>" in a heap buffer. */
module Common {
  import opened CStr
  import opened Utility

  datatype Option<T> = None | Some(value: T)

  datatype Result<T, E> = Ok(value: T) | Err(error: E)

  datatype ShaderStage = Vertex | Fragment

  /** Which libc copy would have written past the end of the buffer. */
  datatype Overflow = StrCpyOverflow | StrCatOverflow

  const ShaderDirectory: CString := "shaders/"

  /** The stage LoadShaders assigns: vertex when StringContains finds
      "vert", else fragment when it finds "frag", else none (the source
      leaves `shaderStage` unassigned). */
  function StageOf(name: CString): Option<ShaderStage> {
    if Matches(name, "vert") then Some(Vertex)
    else if Matches(name, "frag") then Some(Fragment)
    else None
  }

  /** "vert" and "frag" do not repeat their first letter, so the matcher
      is exact for them. */
  lemma MatchesKeywords(name: CString)
    ensures Matches(name, "vert") <==> Occurs(name, "vert")
    ensures Matches(name, "frag") <==> Occurs(name, "frag")
  {
    assert "vert"[1..] == "ert";
    assert "frag"[1..] == "rag";
    MatchesExact(name, "vert");
    MatchesExact(name, "frag");
  }

  /** A name containing "vert" selects the vertex stage, whatever else it
      contains. */
  lemma StageOfVertex(name: CString)
    ensures StageOf(name) == Some(Vertex) <==> Occurs(name, "vert")
  {
    MatchesKeywords(name);
  }

  /** A name containing "frag" but not "vert" selects the fragment stage. */
  lemma StageOfFragment(name: CString)
    ensures StageOf(name) == Some(Fragment) <==> !Occurs(name, "vert") && Occurs(name, "frag")
  {
    MatchesKeywords(name);
  }

  /** A name containing neither keyword selects no stage. */
  lemma StageOfNone(name: CString)
    ensures StageOf(name) == None <==> !Occurs(name, "vert") && !Occurs(name, "frag")
  {
    MatchesKeywords(name);
  }

  /** The stage classification, by two calls of StringContains. */
  method ClassifyStage(name: CString) returns (stage: Option<ShaderStage>)
    ensures stage == StageOf(name)
  {
    var isVertex := StringContains(name, "vert");
    if isVertex {
      return Some(Vertex);
    }
    var isFragment := StringContains(name, "frag");
    if isFragment {
      return Some(Fragment);
    }
    return None;
  }

  /** malloc(capacity), strcpy(buffer, dir), strcat(buffer, name), giving
      the C string the buffer then holds, or the copy that would overrun. */
  method JoinInBuffer(dir: CString, name: CString, capacity: nat) returns (r: Result<seq<char>, Overflow>)
    ensures r.Ok? <==> |dir| + |name| + 1 <= capacity
    ensures r.Ok? ==> r.value == dir + name
    ensures r.Err? ==> r.error == (if |dir| + 1 > capacity then StrCpyOverflow else StrCatOverflow)
  {
    var buffer := new char[capacity];
    var copied := StrCpy(buffer, dir);
    if !copied {
      return Err(StrCpyOverflow);
    }
    var appended := StrCat(buffer, name);
    if !appended {
      return Err(StrCatOverflow);
    }
    var length := StrLen(buffer);
    r := Ok(buffer[..length]);
  }

  /** LoadShaders as written: the buffer holds dirLength + nameLength
      bytes, one short of the path and its terminator, so the copies always
      overrun it (strcpy already for an empty name, strcat otherwise). */
  method LoadShaders(shaderFileName: CString) returns (stage: Option<ShaderStage>, path: Result<seq<char>, Overflow>)
    ensures stage == StageOf(shaderFileName)
    ensures path == Err(if |shaderFileName| == 0 then StrCpyOverflow else StrCatOverflow)
  {
    stage := ClassifyStage(shaderFileName);
    var dirLength := |ShaderDirectory|;
    var nameLength := |shaderFileName|;
    path := JoinInBuffer(ShaderDirectory, shaderFileName, dirLength + nameLength);
  }

  /** LoadShaders with room for the terminator: the path is the directory
      followed by the file name. */
  method LoadShadersCorrected(shaderFileName: CString) returns (stage: Option<ShaderStage>, path: Result<seq<char>, Overflow>)
    ensures stage == StageOf(shaderFileName)
    ensures path == Ok("shaders/" + shaderFileName)
    ensures |path.value| == 8 + |shaderFileName|
  {
    stage := ClassifyStage(shaderFileName);
    var dirLength := |ShaderDirectory|;
    var nameLength := |shaderFileName|;
    path := JoinInBuffer(ShaderDirectory, shaderFileName, dirLength + nameLength + 1);
  }
}
