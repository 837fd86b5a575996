/** The in-browser stand-in for an LMS's SCORM run-time API: a key/value
    store of data-model elements that answers only between Initialize and
    Terminate, exposed to the content under both the SCORM 1.2 names (LMS...)
    and the SCORM 2004 names of section 3.1 of the SCORM 2004 Run-Time
    Environment book. The navigation request element is held apart from the
    store. */
module ScormApi {
  import opened Wrappers

  /** The service's three fields, as a value. */
  datatype ApiState = ApiState(cmiData: map<string, string>, initialized: bool, sequencingRequested: string)

  /** The state a new service starts in. */
  const Initial: ApiState := ApiState(map[], false, "")

  /** The data-model element that is kept out of the store. */
  const NavRequest: string := "adl.nav.request"

  const True: string := "true"
  const False: string := "false"

  // ---------------------------------------------------------------------------
  // The service's behaviour as functions of its state

  /** getValue: "false" before Initialize, the navigation request for its
      element, otherwise the stored value or "" when there is none. */
  function Read(st: ApiState, element: string): string
  {
    if !st.initialized then False
    else if element == NavRequest then st.sequencingRequested
    else if element in st.cmiData then st.cmiData[element]
    else ""
  }

  /** setValue: the state afterwards and the answer. */
  function Write(st: ApiState, element: string, value: string): (ApiState, string)
  {
    if !st.initialized then (st, False)
    else if element == NavRequest then (st.(sequencingRequested := value), True)
    else (st.(cmiData := st.cmiData[element := value]), True)
  }

  /** Before Initialize and after Terminate the store refuses both reads and
      writes, and a refused write changes nothing. */
  lemma ClosedRefuses(st: ApiState, element: string, value: string)
    requires !st.initialized
    ensures Read(st, element) == False
    ensures Write(st, element, value) == (st, False)
  {
  }

  /** An open store accepts every write and reads the value back. */
  lemma WriteThenRead(st: ApiState, element: string, value: string)
    requires st.initialized
    ensures Write(st, element, value).1 == True
    ensures Read(Write(st, element, value).0, element) == value
    ensures Write(st, element, value).0.initialized
  {
  }

  /** A write touches no other element. */
  lemma WriteLeavesOthers(st: ApiState, element: string, value: string, other: string)
    requires other != element
    ensures Read(Write(st, element, value).0, other) == Read(st, other)
    ensures Write(st, element, value).0.initialized == st.initialized
  {
  }

  /** The navigation request never reaches the store, and no other element
      reaches the navigation request. */
  lemma NavRequestHeldApart(st: ApiState, element: string, value: string)
    ensures Write(st, NavRequest, value).0.cmiData == st.cmiData
    ensures element != NavRequest ==> Write(st, element, value).0.sequencingRequested == st.sequencingRequested
    ensures st.initialized && element != NavRequest ==> Write(st, element, value).0.cmiData.Keys == st.cmiData.Keys + {element}
  {
  }

  /** An element never written reads as "" once the store is open. */
  lemma UnsetReadsEmpty(st: ApiState, element: string)
    requires st.initialized && element != NavRequest && element !in st.cmiData
    ensures Read(st, element) == ""
  {
  }

  // ---------------------------------------------------------------------------
  // The two facades

  /** The SCORM version a facade object speaks. */
  datatype Version = Scorm12 | Scorm2004

  /** The eight functions of a facade. */
  datatype Op = Init | GetValue | SetValue | Commit | Finish | LastError | ErrorString | Diagnostic

  /** The property name of each function on window.API (1.2) and
      window.API_1484_11 (2004). */
  function EntryName(v: Version, op: Op): string
  {
    match v
    case Scorm12 => (
      match op
      case Init => "LMSInitialize"
      case GetValue => "LMSGetValue"
      case SetValue => "LMSSetValue"
      case Commit => "LMSCommit"
      case Finish => "LMSFinish"
      case LastError => "LMSGetLastError"
      case ErrorString => "LMSGetErrorString"
      case Diagnostic => "LMSGetDiagnostic")
    case Scorm2004 => (
      match op
      case Init => "Initialize"
      case GetValue => "GetValue"
      case SetValue => "SetValue"
      case Commit => "Commit"
      case Finish => "Terminate"
      case LastError => "GetLastError"
      case ErrorString => "GetErrorString"
      case Diagnostic => "GetDiagnostic")
  }

  /** The function a property name names on a facade, if any. */
  function EntryOf(v: Version, name: string): (r: Option<Op>)
    ensures r.Some? ==> EntryName(v, r.value) == name
    ensures r.None? ==> forall op: Op :: EntryName(v, op) != name
  {
    if name == EntryName(v, Init) then Some(Init)
    else if name == EntryName(v, GetValue) then Some(GetValue)
    else if name == EntryName(v, SetValue) then Some(SetValue)
    else if name == EntryName(v, Commit) then Some(Commit)
    else if name == EntryName(v, Finish) then Some(Finish)
    else if name == EntryName(v, LastError) then Some(LastError)
    else if name == EntryName(v, ErrorString) then Some(ErrorString)
    else if name == EntryName(v, Diagnostic) then Some(Diagnostic)
    else None
  }

  /** Each facade names its eight functions distinctly, so every name finds
      its own function. */
  lemma EntryNamesDistinct(v: Version, op: Op)
    ensures EntryOf(v, EntryName(v, op)) == Some(op)
  {
  }

  /** What a facade function does: the five that reach the service, and the
      three error-reporting ones that always answer the same. */
  function Dispatch(st: ApiState, op: Op, key: string, value: string): (ApiState, string)
  {
    match op
    case Init => (st.(initialized := true), True)
    case GetValue => (st, Read(st, key))
    case SetValue => Write(st, key, value)
    case Commit => (st, True)
    case Finish => (st.(initialized := false), True)
    case LastError => (st, "0")
    case ErrorString => (st, "No error")
    case Diagnostic => (st, "No diagnostic information")
  }

  /** Calling a property of a facade by name; None when the facade has no
      such function. */
  function CallByName(st: ApiState, v: Version, name: string, key: string, value: string): Option<(ApiState, string)>
  {
    match EntryOf(v, name)
    case None => None
    case Some(op) => Some(Dispatch(st, op, key, value))
  }

  /** Both facades do the same thing for the same function. */
  lemma FacadesAgree(st: ApiState, op: Op, key: string, value: string)
    ensures CallByName(st, Scorm12, EntryName(Scorm12, op), key, value)
         == CallByName(st, Scorm2004, EntryName(Scorm2004, op), key, value)
         == Some(Dispatch(st, op, key, value))
  {
    EntryNamesDistinct(Scorm12, op);
    EntryNamesDistinct(Scorm2004, op);
  }

  /** The error functions report no error whatever happened before. */
  lemma NoErrorEver(st: ApiState, v: Version, key: string, value: string)
    ensures CallByName(st, v, EntryName(v, LastError), key, value) == Some((st, "0"))
    ensures CallByName(st, v, EntryName(v, ErrorString), key, value) == Some((st, "No error"))
  {
    EntryNamesDistinct(v, LastError);
    EntryNamesDistinct(v, ErrorString);
  }

  /** Terminate closes the store but keeps its data: after a new Initialize
      every element reads as before, and Commit changes nothing. */
  lemma TerminateKeepsData(st: ApiState, element: string, key: string, value: string)
    ensures var closed := Dispatch(st, Finish, key, value).0;
      && closed.cmiData == st.cmiData
      && Read(closed, element) == False
      && Read(Dispatch(closed, Init, key, value).0, element) == Read(Dispatch(st, Init, key, value).0, element)
    ensures Dispatch(st, Commit, key, value) == (st, True)
  {
  }

  /** Example: a session as the content runs it. Writes before Initialize
      are refused, then accepted and read back. */
  lemma SessionTrace()
    ensures var s0 := Write(Initial, "cmi.core.lesson_status", "completed");
      && s0 == (Initial, False)
      && var s1 := Dispatch(s0.0, Init, "", "").0;
      && var s2 := Write(s1, "cmi.core.lesson_status", "completed");
      && s2.1 == True
      && Read(s2.0, "cmi.core.lesson_status") == "completed"
      && Read(s2.0, "cmi.core.score.raw") == ""
      && Read(s2.0, NavRequest) == ""
  {
  }

  // ---------------------------------------------------------------------------
  // The service object

  class ScormApiService {
    var cmiData: map<string, string>
    var initialized: bool
    var sequencingRequested: string

    function State(): ApiState
      reads this
    {
      ApiState(cmiData, initialized, sequencingRequested)
    }

    constructor ()
      ensures State() == Initial
    {
      cmiData := map[];
      initialized := false;
      sequencingRequested := "";
    }

    method Initialize() returns (r: string)
      modifies this
      ensures (State(), r) == Dispatch(old(State()), Init, "", "")
    {
      initialized := true;
      return True;
    }

    method GetValue(element: string) returns (r: string)
      ensures r == Read(State(), element)
    {
      if !initialized {
        return False;
      }
      if element == NavRequest {
        return sequencingRequested;
      }
      if element in cmiData {
        return cmiData[element];
      }
      return "";
    }

    method SetValue(element: string, value: string) returns (r: string)
      modifies this
      ensures (State(), r) == Write(old(State()), element, value)
    {
      if !initialized {
        return False;
      }
      if element == NavRequest {
        sequencingRequested := value;
      } else {
        cmiData := cmiData[element := value];
      }
      return True;
    }

    method Commit() returns (r: string)
      ensures r == True
    {
      return True;
    }

    method Terminate() returns (r: string)
      modifies this
      ensures (State(), r) == Dispatch(old(State()), Finish, "", "")
    {
      initialized := false;
      return True;
    }

    method GetCmiData() returns (d: map<string, string>)
      ensures d == cmiData
    {
      return cmiData;
    }

    /** A call from the content through window.API or window.API_1484_11;
        None when the facade has no function of that name. */
    method Invoke(v: Version, name: string, key: string, value: string) returns (r: Option<string>)
      modifies this
      ensures var out := CallByName(old(State()), v, name, key, value);
        && (out.None? ==> r.None? && State() == old(State()))
        && (out.Some? ==> r == Some(out.value.1) && State() == out.value.0)
    {
      var entry := EntryOf(v, name);
      if entry.None? {
        return None;
      }
      var answer: string;
      match entry.value {
        case Init => answer := Initialize();
        case GetValue => answer := GetValue(key);
        case SetValue => answer := SetValue(key, value);
        case Commit => answer := Commit();
        case Finish => answer := Terminate();
        case LastError => answer := "0";
        case ErrorString => answer := "No error";
        case Diagnostic => answer := "No diagnostic information";
      }
      return Some(answer);
    }
  }
}
