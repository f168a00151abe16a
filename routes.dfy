/**
 * The HTTP handlers of the service (internal/routes/routes.go), reduced to
 * their decisions: the e-mail and city checks that run before any write, the
 * page/limit defaulting of the listing, and the store call each handler
 * makes with its outcome.  Ids and timestamps, which the source derives from
 * the clock, are parameters; so are the password hash and its comparison.
 */
module Routes {
  import opened Models
  import Db
  import Sql
  import GoInt
  import Strconv
  import PvzTable
  import UserTable
  import ReceptionTable
  import ProductTable
  import RouteSetup

  // ---------------------------------------------------------------- e-mail

  predicate IsLetter(c: char)
  {
    'a' <= c <= 'z' || 'A' <= c <= 'Z'
  }

  predicate IsAlnum(c: char)
  {
    IsLetter(c) || '0' <= c <= '9'
  }

  /** `[a-zA-Z0-9._%+\-]', the characters before the '@'. */
  predicate IsLocalChar(c: char)
  {
    IsAlnum(c) || c == '.' || c == '_' || c == '%' || c == '+' || c == '-'
  }

  /** `[a-zA-Z0-9.\-]', the characters of the host before its last dot. */
  predicate IsDomainChar(c: char)
  {
    IsAlnum(c) || c == '.' || c == '-'
  }

  predicate AllLocal(s: string)
  {
    forall i :: 0 <= i < |s| ==> IsLocalChar(s[i])
  }

  predicate AllDomain(s: string)
  {
    forall i :: 0 <= i < |s| ==> IsDomainChar(s[i])
  }

  predicate AllLetters(s: string)
  {
    forall i :: 0 <= i < |s| ==> IsLetter(s[i])
  }

  /**
   * The regex `^[a-zA-Z0-9._%+\-]+@[a-zA-Z0-9.\-]+\.[a-zA-Z]{2,}$' as Go's
   * regexp reads it (`$' is the end of the text): a non-empty local part, '@',
   * a non-empty host part, '.', and at least two letters, at positions `at'
   * and `dot'.
   */
  ghost predicate EmailShape(s: string, at: int, dot: int)
  {
    1 <= at && at + 2 <= dot && dot + 3 <= |s| &&
    s[at] == '@' && s[dot] == '.' &&
    AllLocal(s[..at]) && AllDomain(s[at + 1..dot]) && AllLetters(s[dot + 1..])
  }

  ghost predicate MatchesEmailRegex(s: string)
  {
    exists at, dot :: EmailShape(s, at, dot)
  }

  /** Length of the longest prefix of local-part characters. */
  function LocalRun(s: string): (n: nat)
    ensures n <= |s| && AllLocal(s[..n]) && (n < |s| ==> !IsLocalChar(s[n]))
  {
    if |s| == 0 || !IsLocalChar(s[0]) then 0
    else
      var n := 1 + LocalRun(s[1..]);
      assert forall i :: 1 <= i < n ==> s[..n][i] == s[1..][..n - 1][i - 1];
      n
  }

  /** Length of the longest suffix of letters. */
  function LetterTail(s: string): (n: nat)
    ensures n <= |s| && AllLetters(s[|s| - n..]) && (n < |s| ==> !IsLetter(s[|s| - n - 1]))
  {
    if |s| == 0 || !IsLetter(s[|s| - 1]) then 0
    else
      var init := s[..|s| - 1];
      var n := 1 + LetterTail(init);
      assert s[|s| - n..] == init[|init| - (n - 1)..] + [s[|s| - 1]];
      n
  }

  /**
   * The part after the '@': the letters at its end number at least two and
   * follow a '.', which follows a non-empty run of host characters.
   */
  predicate IsValidHost(host: string)
  {
    var tld := LetterTail(host);
    2 <= tld && tld + 2 <= |host| && host[|host| - tld - 1] == '.' && AllDomain(host[..|host| - tld - 1])
  }

  /**
   * isValidEmail, as one left-to-right pass: the local part is the longest
   * run of local characters and must end at an '@', and the rest must be a
   * valid host part.
   */
  predicate IsValidEmail(email: string)
  {
    var at := LocalRun(email);
    1 <= at < |email| && email[at] == '@' && IsValidHost(email[at + 1..])
  }

  lemma LocalRunUnique(s: string, m: nat)
    requires m < |s| && AllLocal(s[..m]) && !IsLocalChar(s[m])
    ensures LocalRun(s) == m
  {
  }

  lemma LetterTailUnique(s: string, m: nat)
    requires m < |s| && AllLetters(s[|s| - m..]) && !IsLetter(s[|s| - m - 1])
    ensures LetterTail(s) == m
  {
  }

  /** A host part split at `cut' into host characters, '.', and two or more letters is valid. */
  lemma HostShapeIsValid(host: string, cut: nat)
    requires 1 <= cut && cut + 3 <= |host| && host[cut] == '.'
    requires AllDomain(host[..cut]) && AllLetters(host[cut + 1..])
    ensures IsValidHost(host)
  {
    var tld := |host| - cut - 1;
    assert host[|host| - tld..] == host[cut + 1..];
    LetterTailUnique(host, tld);
  }

  /** Every string the recognizer accepts matches the regex. */
  lemma ValidEmailMatchesRegex(s: string)
    requires IsValidEmail(s)
    ensures MatchesEmailRegex(s)
  {
    var at := LocalRun(s);
    var host := s[at + 1..];
    var tld := LetterTail(host);
    var cut := |host| - tld - 1;
    var dot := at + 1 + cut;
    assert s[at + 1..dot] == host[..cut];
    assert s[dot + 1..] == host[cut + 1..];
    assert EmailShape(s, at, dot);
  }

  /** Every string the regex matches is accepted by the recognizer. */
  lemma RegexMatchIsValidEmail(s: string, at: int, dot: int)
    requires EmailShape(s, at, dot)
    ensures IsValidEmail(s)
  {
    LocalRunUnique(s, at);
    var host := s[at + 1..];
    var cut := dot - at - 1;
    assert host[..cut] == s[at + 1..dot];
    assert host[cut + 1..] == s[dot + 1..];
    HostShapeIsValid(host, cut);
  }

  /** The recognizer accepts exactly the strings the regex matches. */
  lemma IsValidEmailMatchesRegex(s: string)
    ensures IsValidEmail(s) <==> MatchesEmailRegex(s)
  {
    if IsValidEmail(s) {
      ValidEmailMatchesRegex(s);
    }
    if MatchesEmailRegex(s) {
      var at, dot :| EmailShape(s, at, dot);
      RegexMatchIsValidEmail(s, at, dot);
    }
  }

  /** A valid address holds exactly one '@', with a non-empty local part of local characters before it. */
  lemma ValidEmailHasOneAt(s: string)
    requires IsValidEmail(s)
    ensures exists at :: 1 <= at < |s| && s[at] == '@' && AllLocal(s[..at]) &&
                         forall i :: 0 <= i < |s| && s[i] == '@' ==> i == at
  {
    var at := LocalRun(s);
    assert forall i :: 0 <= i < |s| && s[i] == '@' ==> i == at;
  }

  /** A valid address ends in '.' and at least two letters. */
  lemma ValidEmailEndsInLetters(s: string)
    requires IsValidEmail(s)
    ensures |s| >= 5 && IsLetter(s[|s| - 1]) && IsLetter(s[|s| - 2])
  {
    var at := LocalRun(s);
    var host := s[at + 1..];
    var tld := LetterTail(host);
    assert host[|host| - tld..][tld - 1] == s[|s| - 1];
    assert host[|host| - tld..][tld - 2] == s[|s| - 2];
  }

  /** The address the registration tests use is accepted. */
  lemma ExampleAddressAccepted()
    ensures IsValidEmail("test@example.com")
  {
    var s := "test@example.com";
    assert EmailShape(s, 4, 12);
    RegexMatchIsValidEmail(s, 4, 12);
  }

  /** An address without '@' is rejected. */
  lemma NoAtRejected(s: string)
    requires forall i :: 0 <= i < |s| ==> s[i] != '@'
    ensures !IsValidEmail(s)
  {
  }

  // ---------------------------------------------------------------- cities

  const AllowedCities: set<string> := {"Москва", "Казань", "Санкт-Петербург"}

  /** The city check of PVZ_post. */
  predicate IsAllowedCity(city: string)
  {
    city == "Москва" || city == "Казань" || city == "Санкт-Петербург"
  }

  /** The check admits exactly the three cities. */
  lemma AllowedCitiesExactly(city: string)
    ensures IsAllowedCity(city) <==> city in AllowedCities
  {
  }

  // ---------------------------------------------------------------- paging

  /** gin's DefaultQuery: the query value when the key is present (even if empty), else the default. */
  function DefaultQuery(query: map<string, string>, key: string, default: string): string
  {
    if key in query then query[key] else default
  }

  /** gin's Query: the value, or "" when the key is absent. */
  function Query(query: map<string, string>, key: string): string
  {
    DefaultQuery(query, key, "")
  }

  /** page and limit as PVZ_get reads them: Atoi of the value or of "1" / "10", error dropped. */
  function PageAndLimit(query: map<string, string>): (GoInt.Int64, GoInt.Int64)
  {
    (Strconv.Atoi(DefaultQuery(query, "page", "1")), Strconv.Atoi(DefaultQuery(query, "limit", "10")))
  }

  /** Without the keys the listing asks for page 1 of 10. */
  lemma PagingDefaults(query: map<string, string>)
    requires "page" !in query && "limit" !in query
    ensures PageAndLimit(query) == (1, 10)
  {
    Strconv.DefaultsRead();
  }

  /**
   * A page or limit value that does not start with a digit (after an optional
   * sign), the empty value included, reads as 0; each key is read on its own.
   */
  lemma UnparsableIsZero(query: map<string, string>)
    ensures "page" in query && Strconv.NoLeadingDigit(query["page"]) ==> PageAndLimit(query).0 == 0
    ensures "limit" in query && Strconv.NoLeadingDigit(query["limit"]) ==> PageAndLimit(query).1 == 0
  {
  }

  /** Any Int64 written in decimal is read back as itself. */
  lemma PagingReadsNumbers(query: map<string, string>, page: GoInt.Int64, limit: GoInt.Int64)
    requires "page" in query && query["page"] == Strconv.Itoa(page)
    requires "limit" in query && query["limit"] == Strconv.Itoa(limit)
    ensures PageAndLimit(query) == (page, limit)
  {
    Strconv.AtoiItoa(page);
    Strconv.AtoiItoa(limit);
  }

  // ---------------------------------------------------------------- handlers

  /** The answer of a handler; status codes as the source sends them. */
  datatype Reply =
    | Created                                   // 201 with the created record
    | Answer(message: string)                   // 200 with {"message": ...}
    | Listed(pvzs: seq<Pvz>)                    // 200 with the rows
    | Rejected(status: int, message: string)    // a check of the handler failed
    | StoreFailed(status: int, error: Error)    // the store returned an error

  /** Every registered address passes the e-mail check. */
  ghost predicate EmailsValid(users: map<string, User>)
  {
    forall k :: k in users ==> IsValidEmail(users[k].email)
  }

  /** Every PVZ is in one of the allowed cities. */
  ghost predicate CitiesAllowed(pvzs: map<string, Pvz>)
  {
    forall k :: k in pvzs ==> IsAllowedCity(pvzs[k].city)
  }

  /** Register: check the e-mail, then create the user; the store is not touched when the check fails. */
  method Register(s: Db.Store, email: string, password: string, role: string, id: string,
                  hash: string -> Option<string>) returns (reply: Reply)
    requires s.Valid()
    modifies s
    ensures s.Valid()
    ensures !IsValidEmail(email) ==> reply == Rejected(400, "Invalid email") && s.users == old(s.users)
    ensures reply == Created <==>
              IsValidEmail(email) && hash(password).Some? && id !in old(s.users) &&
              !UserTable.EmailTaken(old(s.users), email)
    ensures reply == Created ==> s.users == old(s.users)[id := User(id, email, role, hash(password).value)]
    ensures reply != Created ==> s.users == old(s.users)
    ensures IsValidEmail(email) && hash(password).None? ==> reply == StoreFailed(400, HashFailed)
    ensures IsValidEmail(email) && hash(password).Some? && reply != Created ==>
              (reply == StoreFailed(400, Duplicate("users", "id")) && id in old(s.users)) ||
              (reply == StoreFailed(400, Duplicate("users", "email")) && UserTable.EmailTaken(old(s.users), email))
    ensures EmailsValid(old(s.users)) ==> EmailsValid(s.users)
    ensures s.pvzs == old(s.pvzs) && s.receptions == old(s.receptions) && s.products == old(s.products)
  {
    if !IsValidEmail(email) {
      return Rejected(400, "Invalid email");
    }
    var out := s.CreateUser(id, email, password, role, hash);
    if out.Failed? {
      return StoreFailed(400, out.error);
    }
    reply := Created;
  }

  /** The user Login hands a token to. */
  datatype LoginResult = Issued(user: User) | InvalidCredentials | UserMissing

  /**
   * Login: check the credentials, then look the user up to sign a token
   * with its role.  Token signing is not part of this model.  The "User does
   * not exist" branch is never taken: the credentials check already found
   * the user.
   */
  method Login(s: Db.Store, email: string, password: string, accepts: (string, string) -> bool)
    returns (r: LoginResult)
    requires s.Valid()
    ensures r.Issued? <==> s.CheckCredentials(email, password, accepts).None?
    ensures !r.UserMissing?
    ensures r.Issued? ==>
              r.user.email == email && r.user.id in s.users && s.users[r.user.id] == r.user &&
              accepts(r.user.password, password)
  {
    if s.CheckCredentials(email, password, accepts).Some? {
      return InvalidCredentials;
    }
    var (user, err) := s.GetUserByEmail(email);
    if err.Some? {
      assert false;
      return UserMissing;
    }
    r := Issued(user);
  }

  /** DummyLogin's user.  Its role is "dummy", whatever role the request names. */
  const DummyUser := User("123", "dummy@mail.ru", "dummy", "dummy_password")

  /**
   * The role cookie DummyLogin sets opens no guarded route: its role is on no
   * allow-list, so even a valid token is stopped at the role gate.
   */
  lemma DummyRoleAdmittedNowhere(r: RouteSetup.Route, req: RouteSetup.Request, verify: string -> bool)
    requires r in RouteSetup.Table && !RouteSetup.IsPublic(r.handler)
    requires req.roleCookie == Some(DummyUser.role)
    ensures RouteSetup.RunChain(r.chain, req, verify).Abort?
  {
    RouteSetup.AdmittedExactly(r, req, verify);
    assert DummyUser.role !in RouteSetup.AllowedRoles(r.handler);
  }

  /** PVZ_post: check the city, then create the PVZ at time `now'. */
  method PvzPost(s: Db.Store, city: string, id: string, now: string) returns (reply: Reply)
    requires s.Valid()
    modifies s
    ensures s.Valid()
    ensures !IsAllowedCity(city) ==> reply == Rejected(400, "Invalid city") && s.pvzs == old(s.pvzs)
    ensures reply == Created <==> IsAllowedCity(city) && id !in old(s.pvzs)
    ensures reply == Created ==> s.pvzs == old(s.pvzs)[id := Pvz(id, now, city)]
    ensures reply != Created ==> s.pvzs == old(s.pvzs)
    ensures reply.StoreFailed? ==> reply == StoreFailed(400, Duplicate("pvzs", "id"))
    ensures CitiesAllowed(old(s.pvzs)) ==> CitiesAllowed(s.pvzs)
    ensures s.users == old(s.users) && s.receptions == old(s.receptions) && s.products == old(s.products)
  {
    if !IsAllowedCity(city) {
      return Rejected(400, "Invalid city");
    }
    var out := s.CreatePVZ(id, city, now);
    if out.Failed? {
      return StoreFailed(400, out.error);
    }
    reply := Created;
  }

  /**
   * PVZ_get: read the bounds and the paging values from the query, then list.
   * `ordered' is the whole filtered list in the order the database produced.
   */
  method PvzGet(s: Db.Store, query: map<string, string>) returns (reply: Reply, ghost ordered: seq<Pvz>)
    requires s.Valid()
    ensures reply.Listed?
    ensures var startDate, endDate := Query(query, "startDate"), Query(query, "endDate");
            forall i :: 0 <= i < |reply.pvzs| ==>
              reply.pvzs[i].id in s.pvzs && reply.pvzs[i] == s.pvzs[reply.pvzs[i].id] &&
              PvzTable.InDateRange(reply.pvzs[i].registrationDate, startDate, endDate)
    ensures Sql.SortedDesc(ordered, RegistrationDate) && Sql.SortedDesc(reply.pvzs, RegistrationDate)
    ensures var matching := PvzTable.Matching(s.pvzs, Query(query, "startDate"), Query(query, "endDate"));
            |ordered| == |matching| &&
            (forall i :: 0 <= i < |ordered| ==> ordered[i].id in matching && ordered[i] == s.pvzs[ordered[i].id]) &&
            (forall i, j :: 0 <= i < j < |ordered| ==> ordered[i].id != ordered[j].id)
    ensures var (page, limit) := PageAndLimit(query);
            reply.pvzs == Sql.Window(ordered, limit, PvzTable.Offset(page, limit))
    ensures "page" !in query && "limit" !in query ==> reply.pvzs == PvzTable.PageSlice(ordered, 1, 10)
  {
    var startDate, endDate := Query(query, "startDate"), Query(query, "endDate");
    var (page, limit) := PageAndLimit(query);
    if "page" !in query && "limit" !in query {
      PagingDefaults(query);
    }
    var rows;
    rows, ordered := s.GetPVZsFiltered(startDate, endDate, page, limit);
    reply := Listed(rows);
  }

  /** PVZ_close_last_reception: close the PVZ's newest open reception. */
  method CloseLastReception(s: Db.Store, pvzId: string) returns (reply: Reply, ghost closed: string)
    requires s.Valid()
    modifies s
    ensures s.Valid()
    ensures reply == Answer("Reception closed") <==> ReceptionTable.OpenOf(old(s.receptions), pvzId) != {}
    ensures reply.Answer? ==>
              ReceptionTable.IsNewestOpen(old(s.receptions), pvzId, closed) &&
              s.receptions == ReceptionTable.CloseRow(old(s.receptions), closed)
    ensures reply != Answer("Reception closed") ==>
              reply == StoreFailed(400, NoActiveReception(pvzId)) && s.receptions == old(s.receptions)
    ensures |ReceptionTable.OpenOf(s.receptions, pvzId)| ==
            if reply.Answer? then |ReceptionTable.OpenOf(old(s.receptions), pvzId)| - 1
            else |ReceptionTable.OpenOf(old(s.receptions), pvzId)|
    ensures s.users == old(s.users) && s.pvzs == old(s.pvzs) && s.products == old(s.products)
  {
    var out;
    out, closed := s.CloseLastReception(pvzId);
    if out.Failed? {
      return StoreFailed(400, out.error), closed;
    }
    ReceptionTable.CloseRemovesFromOpen(old(s.receptions), pvzId, closed);
    reply := Answer("Reception closed");
  }

  /** PVZ_delete_last_product: delete the newest product of the PVZ's newest open reception. */
  method DeleteLastProduct(s: Db.Store, pvzId: string) returns (reply: Reply, ghost receptionId: string, ghost productId: string)
    requires s.Valid()
    modifies s
    ensures s.Valid()
    ensures reply == Answer("Product deleted") <==>
              ReceptionTable.OpenOf(old(s.receptions), pvzId) != {} &&
              ProductTable.OfReception(old(s.products), receptionId) != {}
    ensures ReceptionTable.OpenOf(old(s.receptions), pvzId) != {} ==>
              ReceptionTable.IsNewestOpen(old(s.receptions), pvzId, receptionId)
    ensures reply == Answer("Product deleted") ==>
              ProductTable.IsNewestIn(old(s.products), receptionId, productId) &&
              s.products == old(s.products) - {productId}
    ensures reply != Answer("Product deleted") ==> reply.StoreFailed? && s.products == old(s.products)
    ensures ReceptionTable.OpenOf(old(s.receptions), pvzId) == {} ==>
              reply == StoreFailed(400, NoActiveReception(pvzId))
    ensures ReceptionTable.OpenOf(old(s.receptions), pvzId) != {} &&
            ProductTable.OfReception(old(s.products), receptionId) == {} ==>
              reply == StoreFailed(400, NoProducts)
    ensures s.users == old(s.users) && s.pvzs == old(s.pvzs) && s.receptions == old(s.receptions)
  {
    var out;
    out, receptionId, productId := s.DeleteLastProduct(pvzId);
    if out.Failed? {
      return StoreFailed(400, out.error), receptionId, productId;
    }
    reply := Answer("Product deleted");
  }

  /**
   * Receptions: open a reception for the PVZ named in the body, with status
   * in_progress, whether or not one is already open.
   */
  method Receptions(s: Db.Store, pvzId: string, id: string, now: string) returns (reply: Reply)
    requires s.Valid()
    modifies s
    ensures s.Valid()
    ensures reply == Created <==> id !in old(s.receptions)
    ensures reply == Created ==>
              s.receptions == old(s.receptions)[id := Reception(id, now, pvzId, InProgress)] &&
              ReceptionTable.OpenOf(s.receptions, pvzId) == ReceptionTable.OpenOf(old(s.receptions), pvzId) + {id}
    ensures reply != Created ==>
              reply == StoreFailed(400, Duplicate("receptions", "id")) && s.receptions == old(s.receptions)
    ensures s.users == old(s.users) && s.pvzs == old(s.pvzs) && s.products == old(s.products)
  {
    var out := s.CreateReception(id, now, pvzId, InProgress);
    if out.Failed? {
      return StoreFailed(400, out.error);
    }
    ReceptionTable.InsertAddsOpen(old(s.receptions), Reception(id, now, pvzId, InProgress));
    reply := Created;
  }

  /**
   * Products: add a product to the reception named in the body.  The reception
   * is not looked up, so a closed or unknown reception is accepted as well.
   */
  method Products(s: Db.Store, productType: string, receptionId: string, id: string, now: string) returns (reply: Reply)
    requires s.Valid()
    modifies s
    ensures s.Valid()
    ensures reply == Created <==> id !in old(s.products)
    ensures reply == Created ==> s.products == old(s.products)[id := Product(id, now, productType, receptionId)]
    ensures reply != Created ==>
              reply == StoreFailed(400, Duplicate("products", "id")) && s.products == old(s.products)
    ensures s.users == old(s.users) && s.pvzs == old(s.pvzs) && s.receptions == old(s.receptions)
  {
    var out := s.CreateProduct(id, now, productType, receptionId);
    if out.Failed? {
      return StoreFailed(400, out.error);
    }
    reply := Created;
  }
}
