/** The course routes: the listing, resolving a course id against the upload
    folders, and resolving a folder's imsmanifest.xml (IMS Content Packaging as
    profiled by SCORM 2004) into its launchable items. */
module Courses {
  import opened Wrappers
  import opened Text
  import opened Xml
  import FileStore

  /** What the resource index keeps of one resource element. */
  datatype Resource = Resource(href: string, scormType: string)

  /** One launchable item (SCO) of the chosen organization. */
  datatype Sco = Sco(id: string, title: string, launchUrl: string, scormType: string)

  /** The body of a successful course response. */
  datatype Course = Course(name: string, scos: seq<Sco>, scoCount: nat, hasSequencing: bool)

  /** One entry of the course listing. */
  datatype Summary = Summary(id: nat, name: string, path: string, folder: string)

  /** The three distinct 404 answers. */
  datatype NotFoundReason = IndexOutOfRange | NoSuchCourse | FolderMissing

  /** Every way the course-by-id request can fail: 404 (three reasons), the
      three 400 answers, and 500 for anything thrown inside the handler. */
  datatype Failure =
    | NotFound(reason: NotFoundReason)
    | ManifestMissing
    | NoOrganizations
    | NoOrganization
    | ServerError

  /** What reading and parsing a folder's imsmanifest.xml produced. */
  datatype Manifest = Parsed(doc: Document) | Unreadable

  const Untitled: string := "Untitled"

  // ---------------------------------------------------------------------------
  // Display names and the listing

  /** The name shown for a folder: the text after its last '-', or the whole
      folder name when it has no '-'. */
  function DisplayName(folder: string): (name: string)
    ensures '-' !in name
    ensures '-' !in folder ==> name == folder
    ensures '-' in folder ==>
              && |name| < |folder| && name == folder[|folder| - |name|..]
              && folder[|folder| - |name| - 1] == '-'
  {
    LastFieldIsTail(folder, '-');
    if '-' in folder then LastField(folder, '-') else folder
  }

  /** GET /api/courses: one entry per folder, numbered from 1 in listing order. */
  function ListCourses(dirs: seq<string>): (r: seq<Summary>)
    ensures |r| == |dirs|
    ensures forall i | 0 <= i < |dirs| ::
              && r[i].id == i + 1 && r[i].folder == dirs[i]
              && r[i].path == FileStore.UploadsPrefix + dirs[i] && r[i].name == DisplayName(dirs[i])
  {
    seq(|dirs|, i requires 0 <= i < |dirs| =>
      Summary(i + 1, DisplayName(dirs[i]), FileStore.UploadsPrefix + dirs[i], dirs[i]))
  }

  // ---------------------------------------------------------------------------
  // Course id lookup

  /** The predicate of the name search: the folder is the id, or the folder has
      a '-' and its last '-' field is the id. */
  predicate AnswersTo(folder: string, id: string)
  {
    folder == id || ('-' in folder && LastField(folder, '-') == id)
  }

  /** Array.prototype.findIndex for AnswersTo, with |dirs| for "none". */
  function FindByName(dirs: seq<string>, id: string): (j: nat)
    ensures j <= |dirs|
    ensures j < |dirs| ==> AnswersTo(dirs[j], id)
    ensures forall k | 0 <= k < j :: !AnswersTo(dirs[k], id)
  {
    if dirs == [] then 0
    else if AnswersTo(dirs[0], id) then 0
    else 1 + FindByName(dirs[1..], id)
  }

  /** The folder a course id names: an all-digit id is a 1-based position in
      the listing; any other id is matched by name, and a match that is the
      empty string counts as no match (the source tests it for truthiness). */
  function ResolveCourseId(dirs: seq<string>, id: string): (r: Result<string, NotFoundReason>)
    ensures r.Ok? ==> r.value in dirs
    ensures r.Err? ==> r.error == if AllDigits(id) then IndexOutOfRange else NoSuchCourse
  {
    if AllDigits(id) then
      var k := DecimalValue(id);
      if 1 <= k <= |dirs| then Ok(dirs[k - 1]) else Err(IndexOutOfRange)
    else
      var j := FindByName(dirs, id);
      if j < |dirs| && dirs[j] != "" then Ok(dirs[j]) else Err(NoSuchCourse)
  }

  /** A numeric id k finds the k-th folder exactly when 1 <= k <= |dirs|;
      in particular "0" is never found. */
  lemma NumericLookup(dirs: seq<string>, id: string)
    requires AllDigits(id)
    ensures var k := DecimalValue(id);
      && (1 <= k <= |dirs| ==> ResolveCourseId(dirs, id) == Ok(dirs[k - 1]))
      && (k == 0 || k > |dirs| ==> ResolveCourseId(dirs, id) == Err(IndexOutOfRange))
  {
  }

  lemma ZeroIsNeverFound(dirs: seq<string>)
    ensures ResolveCourseId(dirs, "0") == Err(IndexOutOfRange)
  {
    assert AllDigits("0");
    assert "0"[..0] == [];
  }

  /** Every id the listing hands out, printed in decimal, leads back to its
      own folder. */
  lemma ListedIdsResolve(dirs: seq<string>, i: nat)
    requires i < |dirs|
    ensures ResolveCourseId(dirs, DecimalString(ListCourses(dirs)[i].id)) == Ok(dirs[i])
  {
  }

  /** A name lookup finds the first folder that is the id or whose display name
      is the id, and fails when there is none (or it is the empty name). */
  lemma {:induction false} NameLookup(dirs: seq<string>, id: string)
    requires !AllDigits(id)
    ensures ResolveCourseId(dirs, id).Ok? ==>
              exists j | 0 <= j < |dirs| ::
                && dirs[j] == ResolveCourseId(dirs, id).value
                && (dirs[j] == id || DisplayName(dirs[j]) == id)
                && forall k | 0 <= k < j :: dirs[k] != id && DisplayName(dirs[k]) != id
    ensures (forall k | 0 <= k < |dirs| :: dirs[k] != id && DisplayName(dirs[k]) != id) ==>
              ResolveCourseId(dirs, id) == Err(NoSuchCourse)
    ensures forall j | 0 <= j < |dirs| && (dirs[j] == id || DisplayName(dirs[j]) == id)
                     && (forall k | 0 <= k < j :: dirs[k] != id && DisplayName(dirs[k]) != id) ::
              ResolveCourseId(dirs, id) == if dirs[j] != "" then Ok(dirs[j]) else Err(NoSuchCourse)
  {
    var j := FindByName(dirs, id);
    forall k | 0 <= k < |dirs|
      ensures AnswersTo(dirs[k], id) <==> dirs[k] == id || DisplayName(dirs[k]) == id
    {
    }
    if j < |dirs| && dirs[j] != "" {
      assert dirs[j] == ResolveCourseId(dirs, id).value;
    }
    forall i | 0 <= i < |dirs| && (dirs[i] == id || DisplayName(dirs[i]) == id)
               && (forall k | 0 <= k < i :: dirs[k] != id && DisplayName(dirs[k]) != id)
      ensures ResolveCourseId(dirs, id) == if dirs[i] != "" then Ok(dirs[i]) else Err(NoSuchCourse)
    {
      assert AnswersTo(dirs[i], id);
      assert j == i;
    }
  }

  // ---------------------------------------------------------------------------
  // Resource index

  /** adlcp:scormType, else adlcp:scormtype, else "". */
  function ScormTypeOf(node: Node): string
  {
    var a := Attr(node, "adlcp:scormType");
    if a != "" then a else Attr(node, "adlcp:scormtype")
  }

  function EntryOf(node: Node): Resource
  {
    Resource(Attr(node, "href"), ScormTypeOf(node))
  }

  function IdOf(node: Node): string
  {
    Attr(node, "identifier")
  }

  /** The map that setting each resource node in turn produces: nodes without an
      identifier are skipped, later nodes overwrite earlier ones. */
  function ResourceIndex(nodes: seq<Node>): map<string, Resource>
  {
    if nodes == [] then map[]
    else
      var m := ResourceIndex(nodes[..|nodes| - 1]);
      var last := nodes[|nodes| - 1];
      if IdOf(last) == "" then m else m[IdOf(last) := EntryOf(last)]
  }

  /** The index holds exactly the non-empty identifiers of the resources. */
  lemma {:induction false} ResourceIndexKeys(nodes: seq<Node>, key: string)
    ensures key in ResourceIndex(nodes) <==>
              key != "" && exists i | 0 <= i < |nodes| :: IdOf(nodes[i]) == key
  {
    if nodes != [] {
      var init := nodes[..|nodes| - 1];
      ResourceIndexKeys(init, key);
      if key != "" && IdOf(nodes[|nodes| - 1]) != key {
        if exists i | 0 <= i < |nodes| :: IdOf(nodes[i]) == key {
          var i :| 0 <= i < |nodes| && IdOf(nodes[i]) == key;
          assert init[i] == nodes[i];
        }
      }
      forall i | 0 <= i < |init| ensures init[i] == nodes[i] { }
    }
  }

  /** For a duplicated identifier the last resource in document order wins. */
  lemma {:induction false} ResourceIndexLastWins(nodes: seq<Node>, j: nat)
    requires j < |nodes| && IdOf(nodes[j]) != ""
    requires forall i | j < i < |nodes| :: IdOf(nodes[i]) != IdOf(nodes[j])
    ensures IdOf(nodes[j]) in ResourceIndex(nodes)
    ensures ResourceIndex(nodes)[IdOf(nodes[j])] == EntryOf(nodes[j])
  {
    var init := nodes[..|nodes| - 1];
    if j < |nodes| - 1 {
      assert init[j] == nodes[j];
      forall i | j < i < |init| ensures IdOf(init[i]) != IdOf(init[j]) {
        assert init[i] == nodes[i];
      }
      ResourceIndexLastWins(init, j);
    }
  }

  /** The resource loop of the course handler: set each identified resource
      node in document order into a map. */
  method BuildResourceIndex(doc: Document) returns (index: map<string, Resource>)
    ensures index == ResourceIndex(ElementsByTagName(doc.nodes, "resource"))
  {
    var resourceNodes := ElementsByTagName(doc.nodes, "resource");
    index := map[];
    for r := 0 to |resourceNodes|
      invariant index == ResourceIndex(resourceNodes[..r])
    {
      assert resourceNodes[..r + 1][..r] == resourceNodes[..r];
      var node := resourceNodes[r];
      var identifier := Attr(node, "identifier");
      if identifier == "" {
        continue;
      }
      index := index[identifier := Resource(Attr(node, "href"), ScormTypeOf(node))];
    }
    assert resourceNodes[..|resourceNodes|] == resourceNodes;
  }

  // ---------------------------------------------------------------------------
  // Organization selection

  predicate IsDefault(org: Node, defaultId: string)
  {
    defaultId != "" && IdOf(org) == defaultId
  }

  /** Position of the first organization whose identifier is the (non-empty)
      default, or |orgs| when there is none. */
  function DefaultMatch(orgs: seq<Node>, defaultId: string): (j: nat)
    ensures j <= |orgs|
    ensures j < |orgs| ==> IsDefault(orgs[j], defaultId)
    ensures forall k | 0 <= k < j :: !IsDefault(orgs[k], defaultId)
  {
    if orgs == [] then 0
    else if IsDefault(orgs[0], defaultId) then 0
    else 1 + DefaultMatch(orgs[1..], defaultId)
  }

  /** Every `organizations` element of the document, in document order. */
  function Containers(doc: Document): seq<Node>
  {
    ElementsByTagName(doc.nodes, "organizations")
  }

  /** Every `organization` element of the document, wherever it sits. */
  function Organizations(doc: Document): seq<Node>
  {
    ElementsByTagName(doc.nodes, "organization")
  }

  /** The `default` attribute of the first `organizations` element, or "". */
  function DefaultId(doc: Document): string
  {
    var cs := Containers(doc);
    if cs == [] then "" else Attr(cs[0], "default")
  }

  /** The organization the handler works on: the first one named by the
      default, else the first one; failing without a container or without any
      organization. */
  function ChooseOrganization(doc: Document): Result<Node, Failure>
  {
    if Containers(doc) == [] then Err(NoOrganizations)
    else
      var orgs := Organizations(doc);
      var j := DefaultMatch(orgs, DefaultId(doc));
      if j < |orgs| then Ok(orgs[j])
      else if orgs != [] then Ok(orgs[0])
      else Err(NoOrganization)
  }

  /** The organization loop of the course handler, with its early exit. */
  method SelectOrganization(doc: Document) returns (r: Result<Node, Failure>)
    ensures r == ChooseOrganization(doc)
  {
    var containers := ElementsByTagName(doc.nodes, "organizations");
    if containers == [] {
      return Err(NoOrganizations);
    }
    var defaultOrgId := Attr(containers[0], "default");
    var organization: Option<Node> := None;
    var orgNodes := ElementsByTagName(doc.nodes, "organization");
    var j := 0;
    while j < |orgNodes|
      invariant j <= |orgNodes|
      invariant organization == None
      invariant forall k | 0 <= k < j :: !IsDefault(orgNodes[k], defaultOrgId)
    {
      if defaultOrgId != "" && Attr(orgNodes[j], "identifier") == defaultOrgId {
        organization := Some(orgNodes[j]);
        break;
      }
      j := j + 1;
    }
    if organization == None && |orgNodes| > 0 {
      organization := Some(orgNodes[0]);
    }
    if organization == None {
      return Err(NoOrganization);
    }
    r := Ok(organization.value);
  }

  /** An organization whose identifier is the non-empty default is chosen when
      no organization before it in document order also is. */
  lemma DefaultOrganizationWins(doc: Document, j: nat)
    requires Containers(doc) != []
    requires j < |Organizations(doc)| && IsDefault(Organizations(doc)[j], DefaultId(doc))
    requires forall k | 0 <= k < j :: !IsDefault(Organizations(doc)[k], DefaultId(doc))
    ensures ChooseOrganization(doc) == Ok(Organizations(doc)[j])
  {
  }

  /** An empty default, or one that no organization carries, selects the first
      organization in document order. */
  lemma FirstOrganizationFallback(doc: Document)
    requires Containers(doc) != [] && Organizations(doc) != []
    requires forall k | 0 <= k < |Organizations(doc)| :: !IsDefault(Organizations(doc)[k], DefaultId(doc))
    ensures ChooseOrganization(doc) == Ok(Organizations(doc)[0])
  {
  }

  /** The two failures of organization selection, and that a chosen
      organization is always one of the document's organization elements. */
  lemma OrganizationFailures(doc: Document)
    ensures ChooseOrganization(doc) == Err(NoOrganizations) <==> Containers(doc) == []
    ensures ChooseOrganization(doc) == Err(NoOrganization) <==> Containers(doc) != [] && Organizations(doc) == []
    ensures ChooseOrganization(doc).Ok? ==> ChooseOrganization(doc).value in Organizations(doc)
  {
  }

  // ---------------------------------------------------------------------------
  // Sequencing, items and titles

  predicate IsSequencing(n: Node)
  {
    Named(n, "imsss:sequencing") || Named(n, "sequencing")
  }

  /** Whether the organization has a sequencing descendant, in either spelling. */
  function HasSequencing(org: Node): bool
  {
    ElementsByTagName(Kids(org), "imsss:sequencing") != [] || ElementsByTagName(Kids(org), "sequencing") != []
  }

  /** The sequencing flag is exactly the presence of a sequencing element below
      the organization. */
  lemma HasSequencingIff(org: Node)
    ensures HasSequencing(org) <==> exists x :: x in Forest(Kids(org)) && IsSequencing(x)
  {
    var a := ElementsByTagName(Kids(org), "imsss:sequencing");
    var b := ElementsByTagName(Kids(org), "sequencing");
    if a != [] { assert a[0] in a; }
    if b != [] { assert b[0] in b; }
    if exists x :: x in Forest(Kids(org)) && IsSequencing(x) {
      var x :| x in Forest(Kids(org)) && IsSequencing(x);
      assert x in a || x in b;
    }
  }

  /** A sequencing element inside any descendant of the organization, however
      deeply nested, sets the flag. */
  lemma SequencingAtAnyDepth(org: Node, c: Node, x: Node)
    requires c in Forest(Kids(org)) && x in Tree(c) && IsSequencing(x)
    ensures HasSequencing(org)
  {
    ForestTransitive(x, c, Kids(org));
    HasSequencingIff(org);
  }

  predicate HasRef(item: Node)
  {
    Attr(item, "identifierref") != ""
  }

  /** The items among ns that carry a non-empty identifierref, in order. */
  function FilterRef(ns: seq<Node>): (r: seq<Node>)
    ensures forall x :: x in r <==> x in ns && HasRef(x)
    ensures |r| <= |ns|
  {
    if ns == [] then []
    else if HasRef(ns[0]) then [ns[0]] + FilterRef(ns[1..])
    else FilterRef(ns[1..])
  }

  /** The filter keeps order and repetitions: it splits over concatenation, and
      a single item is kept exactly when it has a reference. */
  lemma {:induction false} FilterRefAppend(a: seq<Node>, b: seq<Node>)
    ensures FilterRef(a + b) == FilterRef(a) + FilterRef(b)
    ensures |a| == 1 ==> FilterRef(a) == if HasRef(a[0]) then a else []
  {
    if a != [] {
      var c := a + b;
      assert c[0] == a[0] && c[1..] == a[1..] + b;
      FilterRefAppend(a[1..], b);
      var head := if HasRef(a[0]) then [a[0]] else [];
      assert FilterRef(c) == head + FilterRef(c[1..]);
      assert FilterRef(a) == head + FilterRef(a[1..]);
    } else {
      assert a + b == b;
    }
  }

  /** The organization's launchable items: its `item` descendants with a
      resource reference, in document order. */
  function ScoItems(org: Node): seq<Node>
  {
    FilterRef(ElementsByTagName(Kids(org), "item"))
  }

  lemma ScoItemsAre(org: Node, x: Node)
    ensures x in ScoItems(org) <==> x in Forest(Kids(org)) && Named(x, "item") && HasRef(x)
  {
  }

  /** The launchable items below siblings a + b: those below a, then those
      below b. */
  lemma LaunchableAppend(a: seq<Node>, b: seq<Node>)
    ensures FilterRef(ElementsByTagName(a + b, "item"))
         == FilterRef(ElementsByTagName(a, "item")) + FilterRef(ElementsByTagName(b, "item"))
  {
    ElementsByTagNameAppend(a, b, "item");
    FilterRefAppend(ElementsByTagName(a, "item"), ElementsByTagName(b, "item"));
  }

  /** The launchable items of the tree rooted at n, in pre-order: n itself
      when it is a referencing item, then the launchable items below it. With
      LaunchableAppend this fixes the order and multiplicity of ScoItems. */
  lemma LaunchableTree(n: Node)
    ensures FilterRef(FilterNamed(Tree(n), "item"))
         == (if Named(n, "item") && HasRef(n) then [n] else []) + FilterRef(ElementsByTagName(Kids(n), "item"))
  {
    TreeOrder(n, "item");
    var head := if Named(n, "item") then [n] else [];
    FilterRefAppend(head, ElementsByTagName(Kids(n), "item"));
    if head == [] {
      assert FilterRef(head) == [];
    }
  }

  /** An item's title: the trimmed text of its first `title` descendant, or
      "Untitled" when there is none or it trims to nothing. Either way it is
      non-empty and has no white space at its ends. */
  function TitleOf(item: Node): (title: string)
    ensures title != [] && !IsSpace(title[0]) && !IsSpace(title[|title| - 1])
  {
    var titles := ElementsByTagName(Kids(item), "title");
    if titles == [] then Untitled
    else
      var t := Trim(TextContent(titles[0]));
      if t == "" then Untitled else t
  }

  /** The title is the trimmed text of the first `title` element below the
      item in document order, or "Untitled" when there is no such element or
      its text trims to nothing. */
  lemma TitleIsFirstTitle(item: Node)
    ensures (forall x | x in Forest(Kids(item)) :: !Named(x, "title")) ==> TitleOf(item) == Untitled
    ensures var f := Forest(Kids(item));
      forall i | 0 <= i < |f| && Named(f[i], "title") && (forall k | 0 <= k < i :: !Named(f[k], "title")) ::
        TitleOf(item) == if Trim(TextContent(f[i])) == "" then Untitled else Trim(TextContent(f[i]))
  {
    var f := Forest(Kids(item));
    var titles := ElementsByTagName(Kids(item), "title");
    if titles != [] {
      assert titles[0] in titles;
      FirstNamed(f, "title");
      var j :| 0 <= j < |f| && f[j] == titles[0] && Named(f[j], "title")
        && forall k | 0 <= k < j :: !Named(f[k], "title");
      forall i | 0 <= i < |f| && Named(f[i], "title") && (forall k | 0 <= k < i :: !Named(f[k], "title"))
        ensures f[i] == titles[0]
      {
        assert i == j;
      }
    } else {
      forall i | 0 <= i < |f| ensures !Named(f[i], "title") {
        assert f[i] in f;
      }
    }
  }

  /** The entry the handler builds for an item and the resource it refers to:
      the item's identifier and title, the resource's href under the folder's
      URL, and its SCORM type. */
  function ScoOf(item: Node, res: Resource, folder: string): Sco
  {
    Sco(Attr(item, "identifier"), TitleOf(item), FileStore.UploadsPrefix + folder + "/" + res.href, res.scormType)
  }

  /** The SCO list: each item mapped to its entry, or nothing at all when some
      item refers to a resource the index does not have (the source then reads
      `href` of undefined and the request fails as a whole). */
  function BuildScos(items: seq<Node>, index: map<string, Resource>, folder: string): Option<seq<Sco>>
  {
    if items == [] then Some([])
    else
      var ref := Attr(items[0], "identifierref");
      if ref !in index then None
      else
        match BuildScos(items[1..], index, folder)
        case None => None
        case Some(rest) => Some([ScoOf(items[0], index[ref], folder)] + rest)
  }

  /** The list exists exactly when every item's reference is indexed. */
  lemma {:induction false} BuildScosDefined(items: seq<Node>, index: map<string, Resource>, folder: string)
    ensures BuildScos(items, index, folder).Some? <==> forall i | 0 <= i < |items| :: Attr(items[i], "identifierref") in index
  {
    if items != [] {
      var tail := items[1..];
      BuildScosDefined(tail, index, folder);
      assert forall i | 1 <= i < |items| :: items[i] == tail[i - 1];
    }
  }

  /** A list that exists holds, item by item and in the items' order, the
      entry built from the item and its resource. */
  lemma {:induction false} BuildScosEntries(items: seq<Node>, index: map<string, Resource>, folder: string)
    requires BuildScos(items, index, folder).Some?
    ensures |BuildScos(items, index, folder).value| == |items|
    ensures forall i | 0 <= i < |items| :: Attr(items[i], "identifierref") in index
    ensures forall i | 0 <= i < |items| ::
              BuildScos(items, index, folder).value[i] == ScoOf(items[i], index[Attr(items[i], "identifierref")], folder)
  {
    BuildScosDefined(items, index, folder);
    if items != [] {
      var tail := items[1..];
      BuildScosEntries(tail, index, folder);
      var rest := BuildScos(tail, index, folder).value;
      var scos := [ScoOf(items[0], index[Attr(items[0], "identifierref")], folder)] + rest;
      assert BuildScos(items, index, folder) == Some(scos);
      assert forall i | 1 <= i < |items| :: items[i] == tail[i - 1] && scos[i] == rest[i - 1];
    }
  }

  // ---------------------------------------------------------------------------
  // Resolving a manifest

  /** The resolution of one parsed manifest for the given folder. */
  function ResolveManifest(doc: Document, folder: string): Result<Course, Failure>
  {
    var index := ResourceIndex(ElementsByTagName(doc.nodes, "resource"));
    match ChooseOrganization(doc)
    case Err(e) => Err(e)
    case Ok(org) =>
      match BuildScos(ScoItems(org), index, folder)
      case None => Err(ServerError)
      case Some(scos) => Ok(Course(DisplayName(folder), scos, |scos|, HasSequencing(org)))
  }

  /** GET /api/courses/:id as a function of the folder listing, the folders
      present on disk, and what each folder's manifest reads as (a folder
      missing from the map has no imsmanifest.xml). */
  function CourseById(dirs: seq<string>, id: string, present: set<string>, manifests: map<string, Manifest>): Result<Course, Failure>
  {
    match ResolveCourseId(dirs, id)
    case Err(why) => Err(NotFound(why))
    case Ok(folder) =>
      if folder !in present then Err(NotFound(FolderMissing))
      else if folder !in manifests then Err(ManifestMissing)
      else
        match manifests[folder]
        case Unreadable => Err(ServerError)
        case Parsed(doc) => ResolveManifest(doc, folder)
  }

  /** The course handler, step by step. */
  method GetCourse(dirs: seq<string>, id: string, present: set<string>, manifests: map<string, Manifest>)
    returns (r: Result<Course, Failure>)
    ensures r == CourseById(dirs, id, present, manifests)
  {
    var folderName: string;
    if AllDigits(id) {
      var idx := DecimalValue(id) - 1;
      if idx < 0 || idx >= |dirs| {
        return Err(NotFound(IndexOutOfRange));
      }
      folderName := dirs[idx];
    } else {
      var j := FindByName(dirs, id);
      if j == |dirs| || dirs[j] == "" {
        return Err(NotFound(NoSuchCourse));
      }
      folderName := dirs[j];
    }
    if folderName !in present {
      return Err(NotFound(FolderMissing));
    }
    if folderName !in manifests {
      return Err(ManifestMissing);
    }
    if manifests[folderName].Unreadable? {
      return Err(ServerError);
    }
    var xmlDoc := manifests[folderName].doc;
    var resourcesMap := BuildResourceIndex(xmlDoc);
    var chosen := SelectOrganization(xmlDoc);
    if chosen.Err? {
      return Err(chosen.error);
    }
    var organization := chosen.value;
    var hasSequencing := HasSequencing(organization);
    var scos := BuildScos(ScoItems(organization), resourcesMap, folderName);
    if scos.None? {
      return Err(ServerError);
    }
    r := Ok(Course(DisplayName(folderName), scos.value, |scos.value|, hasSequencing));
  }

  /** What a resolved course holds: one SCO per launchable item of the chosen
      organization, in document order, each launching its resource under the
      folder; the count and the sequencing flag; and the display name. */
  lemma ResolvedCourse(doc: Document, folder: string)
    requires ResolveManifest(doc, folder).Ok?
    ensures ChooseOrganization(doc).Ok?
    ensures var c := ResolveManifest(doc, folder).value;
      var org := ChooseOrganization(doc).value;
      var items := ScoItems(org);
      var index := ResourceIndex(ElementsByTagName(doc.nodes, "resource"));
      && c.scoCount == |c.scos| == |items|
      && c.hasSequencing == HasSequencing(org)
      && c.name == DisplayName(folder) && '-' !in c.name
      && forall i | 0 <= i < |items| ::
           && Attr(items[i], "identifierref") in index
           && c.scos[i] == ScoOf(items[i], index[Attr(items[i], "identifierref")], folder)
           && c.scos[i].title == TitleOf(items[i])
           && c.scos[i].launchUrl == FileStore.UploadsPrefix + folder + "/" + index[Attr(items[i], "identifierref")].href
  {
    var org := ChooseOrganization(doc).value;
    BuildScosEntries(ScoItems(org), ResourceIndex(ElementsByTagName(doc.nodes, "resource")), folder);
  }

  /** An item that refers to a resource missing from the index fails the whole
      request: no partial list is returned. */
  lemma DanglingReferenceFails(doc: Document, folder: string, item: Node)
    requires ChooseOrganization(doc).Ok?
    requires item in ScoItems(ChooseOrganization(doc).value)
    requires Attr(item, "identifierref") !in ResourceIndex(ElementsByTagName(doc.nodes, "resource"))
    ensures ResolveManifest(doc, folder) == Err(ServerError)
  {
    var items := ScoItems(ChooseOrganization(doc).value);
    var i :| 0 <= i < |items| && items[i] == item;
    BuildScosDefined(items, ResourceIndex(ElementsByTagName(doc.nodes, "resource")), folder);
  }
}
