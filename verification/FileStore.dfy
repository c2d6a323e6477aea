// The request handler of a device and the files it keeps (src/device/device.cpp and
// src/common/utility.cpp).
module FileStore {
  import opened Text
  import opened HttpText
  import opened HttpParse
  import opened HttpMessages

  // The device's files by name. Creating, reading and removing a file do not fail.
  type Files = map<string, string>

  // What the handler takes from outside: the device's name and the texts that other libraries
  // make, its configuration and the listing of its files.
  datatype Settings = Settings(id: string, info: string, listing: Files -> string)

  predicate IsAlphanumeric(c: char) {
    '0' <= c <= '9' || 'A' <= c <= 'Z' || 'a' <= c <= 'z'
  }

  predicate ValidName(name: string) {
    && 1 <= |name| <= 200 && IsAlphanumeric(name[0])
    && forall i :: 0 <= i < |name| ==> IsAlphanumeric(name[i]) || name[i] == '.' || name[i] == '_'
  }

  // A letter or a decimal digit.
  ghost predicate LetterOrDigit(c: char) {
    c in UPPER_LETTERS || c in LOWER_LETTERS || c in "0123456789"
  }

  lemma AlphanumericIff(c: char)
    ensures IsAlphanumeric(c) <==> LetterOrDigit(c)
  {
    IsLetter(c);
    if '0' <= c <= '9' {
      assert "0123456789"[c as int - '0' as int] == c;
    }
  }

  /** A name of a letter or digit and up to 199 letters, digits, periods and underscores. */
  lemma ValidNameIff(name: string)
    ensures ValidName(name)
            <==> 0 < |name| < 201 && LetterOrDigit(name[0])
                 && forall i :: 0 <= i < |name| ==> LetterOrDigit(name[i]) || name[i] == '.' || name[i] == '_'
  {
    forall i | 0 <= i < |name|
      ensures IsAlphanumeric(name[i]) <==> LetterOrDigit(name[i])
    {
      AlphanumericIff(name[i]);
    }
  }

  /** is_valid_filename. */
  method IsValidFilename(name: string) returns (valid: bool)
    ensures valid <==> ValidName(name)
  {
    if |name| < 1 || |name| > 200 {
      return false;
    }
    if !IsAlphanumeric(name[0]) {
      return false;
    }
    for i := 0 to |name|
      invariant forall k :: 0 <= k < i ==> IsAlphanumeric(name[k]) || name[k] == '.' || name[k] == '_'
    {
      if !IsAlphanumeric(name[i]) && name[i] != '.' && name[i] != '_' {
        return false;
      }
    }
    valid := true;
  }

  /** split_string. */
  method SplitString(s: string, c: char) returns (items: seq<string>)
    ensures items == Split(s, c)
  {
    items := [];
    var start := 0;
    var end := Find(s, c, 0);
    assert s[0..] == s;
    while end < |s|
      invariant 0 <= start <= |s| && end == Find(s, c, start)
      invariant items + Split(s[start..], c) == Split(s, c)
      decreases |s| - start
    {
      SplitAt(s, c, start, end);
      ItemsAssoc(items, s[start..end], Split(s[end + 1..], c));
      items := items + [s[start..end]];
      start := end + 1;
      end := Find(s, c, start);
    }
    SplitAt(s, c, start, end);
    items := items + [s[start..]];
  }

  lemma ItemsAssoc(items: seq<string>, item: string, more: seq<string>)
    ensures items + ([item] + more) == items + [item] + more
  {
  }

  function NonEmpty(items: seq<string>): (r: seq<string>)
    ensures "" !in r
  {
    if items == [] then [] else (if items[0] == "" then [] else [items[0]]) + NonEmpty(items[1..])
  }

  function Items(path: string): seq<string> {
    NonEmpty(Split(path, '/'))
  }

  method PathItems(path: string) returns (items: seq<string>)
    ensures items == Items(path)
  {
    var all := SplitString(path, '/');
    items := [];
    for i := 0 to |all|
      invariant items + NonEmpty(all[i..]) == NonEmpty(all)
    {
      assert all[i..][1..] == all[i + 1..];
      if |all[i]| > 0 {
        items := items + [all[i]];
      }
    }
  }

  const WRONG_DEVICE := BAD_GATEWAY.(body := "Wrong device.")
  const BAD_NAME := BAD_REQUEST.(body := "Bad file name.")
  const EXISTS := BAD_REQUEST.(body := "File already exists.")

  /** The content that a request asks a file to have. */
  function DataOf(r: Request): string {
    match Lookup(r.header, "X-Data") case Some(data) => data case None => ""
  }

  predicate IsRead(r: Request) {
    r.verb == "GET" || r.verb == "POST"
  }

  /** HandleRequest: the files it leaves and its response, None when it does not handle the request. */
  function Handle(s: Settings, files: Files, r: Request): (Files, Option<Response>) {
    var items := Items(r.path);
    if items != [] && items[0] != s.id then (files, Some(WRONG_DEVICE))
    else if IsRead(r) && |items| == 2 && items[1] == "info" then
      (files, Some(OK.(header := [Field("Content-Type", "application/json")], body := s.info)))
    else if IsRead(r) && |items| == 2 && items[1] == "file" then
      (files, Some(OK.(header := [Field("Content-Type", "text/plain; charset=UTF-8")], body := s.listing(files))))
    else if |items| == 3 && items[1] == "file" && (IsRead(r) || r.verb == "PUT" || r.verb == "DELETE") then
      var name := items[2];
      if !ValidName(name) then (files, Some(BAD_NAME))
      else if IsRead(r) then (files, Some(if name in files then OK.(body := files[name]) else BAD_REQUEST))
      else if r.verb == "PUT" then
        if name in files then (files, Some(EXISTS)) else (files[name := DataOf(r)], Some(OK))
      else
        if name in files then (files - {name}, Some(OK)) else (files, Some(NOT_FOUND))
    else (files, None)
  }

  // ---------- what the handler answers ----------

  lemma {:induction false} SplitJoin(a: string, c: char, b: string)
    ensures Split(a + [c] + b, c) == Split(a, c) + Split(b, c)
    decreases |a|
  {
    var i := Find(a, c, 0);
    if i == |a| {
      SplitHead(a, c, b);
    } else {
      var rest := a[i + 1..];
      assert a + [c] + b == a[..i] + [c] + (rest + [c] + b);
      SplitHead(a[..i], c, rest + [c] + b);
      SplitJoin(rest, c, b);
      ItemsConcat([a[..i]], Split(rest, c), Split(b, c));
    }
  }

  lemma {:induction false} NonEmptyAppend(a: seq<string>, b: seq<string>)
    ensures NonEmpty(a + b) == NonEmpty(a) + NonEmpty(b)
  {
    if a == [] {
      assert a + b == b;
    } else {
      assert (a + b)[0] == a[0] && (a + b)[1..] == a[1..] + b;
      NonEmptyAppend(a[1..], b);
      ItemsConcat(if a[0] == "" then [] else [a[0]], NonEmpty(a[1..]), NonEmpty(b));
    }
  }

  lemma ItemsConcat(a: seq<string>, b: seq<string>, c: seq<string>)
    ensures a + (b + c) == a + b + c
  {
  }

  /** The items of a path are its segments; a slash more or less makes no difference. */
  lemma ItemsJoin(a: string, b: string)
    ensures Items(a + "/" + b) == Items(a) + Items(b)
    ensures '/' !in a ==> Items(a) == if a == "" then [] else [a]
  {
    SplitJoin(a, '/', b);
    NonEmptyAppend(Split(a, '/'), Split(b, '/'));
    if '/' !in a {
      SplitWhole(a, '/');
    }
  }

  lemma OneItem(d: string)
    requires d != "" && '/' !in d
    ensures Items("/" + d) == [d]
  {
    ItemsJoin("", d);
    ItemsJoin(d, "");
    assert "" + "/" + d == "/" + d;
  }

  lemma TwoItems(d: string, x: string)
    requires d != "" && x != "" && '/' !in d && '/' !in x
    ensures Items("/" + d + "/" + x) == [d, x]
  {
    OneItem(d);
    ItemsJoin(x, "");
    ItemsJoin("/" + d, x);
  }

  lemma ThreeItems(d: string, x: string, y: string)
    requires d != "" && x != "" && y != "" && '/' !in d && '/' !in x && '/' !in y
    ensures Items("/" + d + "/" + x + "/" + y) == [d, x, y]
  {
    ItemsJoin("/" + d + "/" + x, y);
    TwoItems(d, x);
    ItemsJoin(y, "");
  }

  /** The data of a request: the value of its first field named X-Data, in any case, or nothing. */
  ghost predicate Carries(r: Request, data: string) {
    || (exists i: nat :: FirstNamed(r.header, i, "X-Data") && r.header[i].value == data)
    || (NoneNamed(r.header, "X-Data") && data == "")
  }

  lemma CarriesIff(r: Request, data: string)
    ensures Carries(r, data) <==> DataOf(r) == data
  {
    LookupFinds(r.header, "X-Data");
    if NoneNamed(r.header, "X-Data") {
      assert forall i: nat :: !FirstNamed(r.header, i, "X-Data");
    } else {
      var i := FirstIsNamed(r.header, "X-Data");
      assert Lookup(r.header, "X-Data") == Some(r.header[i].value);
    }
  }

  /** "/d/info" and "/d/file" of device d. */
  lemma AnswersReads(s: Settings, files: Files, r: Request)
    requires s.id != "" && '/' !in s.id && (r.verb == "GET" || r.verb == "POST")
    ensures r.path == "/" + s.id + "/info" ==>
              Handle(s, files, r)
              == (files, Some(Response("1.1", "200", "OK", [Field("Content-Type", "application/json")], s.info)))
    ensures r.path == "/" + s.id + "/file" ==>
              Handle(s, files, r)
              == (files, Some(Response("1.1", "200", "OK", [Field("Content-Type", "text/plain; charset=UTF-8")],
                                       s.listing(files))))
  {
    TwoItems(s.id, "info");
    TwoItems(s.id, "file");
    assert "/" + s.id + "/info" == "/" + s.id + "/" + "info" && "/" + s.id + "/file" == "/" + s.id + "/" + "file";
    assert "info" != "file";
  }

  // The answer to a request for one file, by what is there.
  function FileAnswer(files: Files, verb: string, name: string, data: string): (Files, Option<Response>) {
    if !ValidName(name) then (files, Some(Response("1.1", "400", "Bad Request", [], "Bad file name.")))
    else if verb == "GET" || verb == "POST" then
      (files, Some(if name in files then Response("1.1", "200", "OK", [], files[name])
                   else Response("1.1", "400", "Bad Request", [], "")))
    else if verb == "PUT" then
      if name in files then (files, Some(Response("1.1", "400", "Bad Request", [], "File already exists.")))
      else (files[name := data], Some(Response("1.1", "200", "OK", [], "")))
    else
      if name in files then (files - {name}, Some(Response("1.1", "200", "OK", [], "")))
      else (files, Some(Response("1.1", "404", "Not Found", [], "")))
  }

  /** "/d/file/name" of device d. */
  lemma AnswersFile(s: Settings, files: Files, r: Request, name: string, data: string)
    requires s.id != "" && '/' !in s.id && name != "" && '/' !in name && Carries(r, data)
    requires r.path == "/" + s.id + "/file/" + name
    ensures Handle(s, files, r)
            == if r.verb == "GET" || r.verb == "POST" || r.verb == "PUT" || r.verb == "DELETE"
               then FileAnswer(files, r.verb, name, data) else (files, None)
  {
    ThreeItems(s.id, "file", name);
    assert r.path == "/" + s.id + "/" + "file" + "/" + name;
    CarriesIff(r, data);
  }

  /** Any request for another device. */
  lemma AnswersOthers(s: Settings, files: Files, r: Request, d: string, tail: string)
    requires d != "" && '/' !in d && d != s.id && (r.path == "/" + d || r.path == "/" + d + "/" + tail)
    ensures Handle(s, files, r) == (files, Some(Response("1.1", "502", "Bad Gateway", [], "Wrong device.")))
  {
    OneItem(d);
    ItemsJoin("/" + d, tail);
  }

  /** Everything else that is not for another device is left unhandled. */
  lemma UnhandledIff(s: Settings, files: Files, r: Request)
    ensures Handle(s, files, r).1 == None
            <==> var items, read := Items(r.path), r.verb == "GET" || r.verb == "POST";
                 && (items == [] || items[0] == s.id)
                 && !(read && |items| == 2 && (items[1] == "info" || items[1] == "file"))
                 && !(|items| == 3 && items[1] == "file" && (read || r.verb == "PUT" || r.verb == "DELETE"))
    ensures Handle(s, files, r).1 == None ==> Handle(s, files, r).0 == files
  {
  }

  // ---------- the store is a product of independent files ----------

  /** The file a request addresses on this device. */
  function Addressed(s: Settings, r: Request): Option<string> {
    var items := Items(r.path);
    if |items| == 3 && items[0] == s.id && items[1] == "file" && ValidName(items[2]) then Some(items[2]) else None
  }

  /** A single file: created once, with the content its creator gives, until it is deleted. */
  function FileStep(content: Option<string>, r: Request): Option<string> {
    if r.verb == "PUT" && content == None then Some(DataOf(r))
    else if r.verb == "DELETE" then None
    else content
  }

  function FileResponse(content: Option<string>, r: Request): Option<Response> {
    if IsRead(r) then Some(match content case Some(c) => OK.(body := c) case None => BAD_REQUEST)
    else if r.verb == "PUT" then Some(if content == None then OK else EXISTS)
    else if r.verb == "DELETE" then Some(if content == None then NOT_FOUND else OK)
    else None
  }

  function Cell(files: Files, name: string): Option<string> {
    if name in files then Some(files[name]) else None
  }

  function FilesAfter(s: Settings, files: Files, rs: seq<Request>): Files
    decreases |rs|
  {
    if rs == [] then files
    else Handle(s, FilesAfter(s, files, rs[..|rs| - 1]), rs[|rs| - 1]).0
  }

  /** What a single file sees of a run: only the requests that address it. */
  function FileAfter(s: Settings, name: string, content: Option<string>, rs: seq<Request>): Option<string>
    decreases |rs|
  {
    if rs == [] then content
    else
      var before := FileAfter(s, name, content, rs[..|rs| - 1]);
      if Addressed(s, rs[|rs| - 1]) == Some(name) then FileStep(before, rs[|rs| - 1]) else before
  }

  lemma HandleCell(s: Settings, files: Files, r: Request, name: string)
    ensures Cell(Handle(s, files, r).0, name)
            == if Addressed(s, r) == Some(name) then FileStep(Cell(files, name), r) else Cell(files, name)
    ensures Addressed(s, r) == Some(name) ==> Handle(s, files, r).1 == FileResponse(Cell(files, name), r)
  {
  }

  /** Over any run the store refines independent files: each holds what the requests that
      address it make of it, and they alone decide the responses to them. */
  lemma {:induction false} StoreIsIndependentFiles(s: Settings, files: Files, rs: seq<Request>, name: string)
    ensures Cell(FilesAfter(s, files, rs), name) == FileAfter(s, name, Cell(files, name), rs)
    decreases |rs|
  {
    if rs != [] {
      StoreIsIndependentFiles(s, files, rs[..|rs| - 1], name);
      HandleCell(s, FilesAfter(s, files, rs[..|rs| - 1]), rs[|rs| - 1], name);
    }
  }

  function ResponseAt(s: Settings, files: Files, rs: seq<Request>, k: nat): Option<Response>
    requires k < |rs|
  {
    Handle(s, FilesAfter(s, files, rs[..k]), rs[k]).1
  }

  /** From a store with valid names every reachable store has only valid names. */
  lemma {:induction false} NamesStayValid(s: Settings, files: Files, rs: seq<Request>)
    requires forall name :: name in files ==> ValidName(name)
    ensures forall name :: name in FilesAfter(s, files, rs) ==> ValidName(name)
    decreases |rs|
  {
    if rs != [] {
      NamesStayValid(s, files, rs[..|rs| - 1]);
    }
  }

  lemma {:induction false} Untouched(s: Settings, name: string, content: Option<string>, rs: seq<Request>, k: nat, m: nat)
    requires k <= m <= |rs|
    requires forall j :: k <= j < m && Addressed(s, rs[j]) == Some(name) ==>
               FileStep(FileAfter(s, name, content, rs[..k]), rs[j]) == FileAfter(s, name, content, rs[..k])
    ensures FileAfter(s, name, content, rs[..m]) == FileAfter(s, name, content, rs[..k])
    decreases m
  {
    if k < m {
      assert rs[..m][..m - 1] == rs[..m - 1];
      Untouched(s, name, content, rs, k, m - 1);
    }
  }

  // Request k of a run, as the file that it addresses sees it.
  lemma FileAt(s: Settings, files: Files, rs: seq<Request>, name: string, k: nat)
    requires k < |rs| && Addressed(s, rs[k]) == Some(name)
    ensures var before := FileAfter(s, name, Cell(files, name), rs[..k]);
            && ResponseAt(s, files, rs, k) == FileResponse(before, rs[k])
            && FileAfter(s, name, Cell(files, name), rs[..k + 1]) == FileStep(before, rs[k])
            && Cell(FilesAfter(s, files, rs[..k + 1]), name) == FileStep(before, rs[k])
  {
    StoreIsIndependentFiles(s, files, rs[..k], name);
    StoreIsIndependentFiles(s, files, rs[..k + 1], name);
    HandleCell(s, FilesAfter(s, files, rs[..k]), rs[k], name);
    assert rs[..k + 1][..k] == rs[..k];
  }

  /** Between a creating PUT and a DELETE of a file every read returns the data that the PUT carried. */
  lemma ReadsReturnWhatWasPut(s: Settings, files: Files, rs: seq<Request>, name: string, k: nat, m: nat, data: string)
    requires k < m < |rs| && Addressed(s, rs[k]) == Some(name) && Addressed(s, rs[m]) == Some(name)
    requires rs[k].verb == "PUT" && Carries(rs[k], data) && ResponseAt(s, files, rs, k) == Some(OK)
    requires rs[m].verb == "GET" || rs[m].verb == "POST"
    requires forall j :: k < j < m && Addressed(s, rs[j]) == Some(name) ==> rs[j].verb != "DELETE"
    ensures ResponseAt(s, files, rs, m) == Some(Response("1.1", "200", "OK", [], data))
  {
    CarriesIff(rs[k], data);
    FileAt(s, files, rs, name, k);
    Untouched(s, name, Cell(files, name), rs, k + 1, m);
    FileAt(s, files, rs, name, m);
  }

  /** After a DELETE, until the next PUT, a file can be created; before that it cannot be read. */
  lemma DeleteMakesCreatable(s: Settings, files: Files, rs: seq<Request>, name: string, k: nat, m: nat, data: string)
    requires k < m < |rs| && Addressed(s, rs[k]) == Some(name) && Addressed(s, rs[m]) == Some(name)
    requires rs[k].verb == "DELETE" && Carries(rs[m], data)
    requires forall j :: k < j < m && Addressed(s, rs[j]) == Some(name) ==> rs[j].verb != "PUT"
    ensures rs[m].verb == "PUT" ==>
              && ResponseAt(s, files, rs, m) == Some(Response("1.1", "200", "OK", [], ""))
              && Cell(FilesAfter(s, files, rs[..m + 1]), name) == Some(data)
    ensures rs[m].verb == "GET" || rs[m].verb == "POST" ==>
              ResponseAt(s, files, rs, m) == Some(Response("1.1", "400", "Bad Request", [], ""))
  {
    CarriesIff(rs[m], data);
    FileAt(s, files, rs, name, k);
    Untouched(s, name, Cell(files, name), rs, k + 1, m);
    FileAt(s, files, rs, name, m);
  }

  /** A request changes the store exactly when it creates or deletes a file. */
  lemma ChangesIff(s: Settings, files: Files, r: Request)
    ensures Handle(s, files, r).0 != files
            <==> Addressed(s, r).Some?
                 && var name := Addressed(s, r).value;
                    (r.verb == "PUT" && name !in files) || (r.verb == "DELETE" && name in files)
  {
    var after := Handle(s, files, r).0;
    if Addressed(s, r).Some? {
      HandleCell(s, files, r, Addressed(s, r).value);
      assert Addressed(s, r).value in after <==> Cell(after, Addressed(s, r).value).Some?;
    }
  }
}
