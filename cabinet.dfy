/** The cabinet affiliation views: a user creates a cabinet (and becomes its owner), or asks to join
    an existing one; a cabinet member confirms or declines pending requests; a sender cancels
    their own. The three tables (`Cabinet`, `Associate`, `RequestAssociate`) and the users'
    `is_cabinet_owner` flags are the fields of `CabinetDb`; each view is one method, its HTTP
    answer a `Response`. */
module CabinetViews {
  import opened Text

  datatype Cabinet = Cabinet(id: nat, name: string)

  /** An `Associate` row: the user (one row per user at most) and the cabinet they belong to. */
  datatype Associate = Associate(userId: nat, cabinetId: nat)

  /** A pending `RequestAssociate` row. */
  datatype AssociationRequest = AssociationRequest(senderId: nat, receiverId: nat, cabinetId: nat)

  datatype Page = CreateCabinetPage | AskForPage | ProfilePage

  /** The flash messages the views add before redirecting back to the ask-for page. */
  datatype Notice = CopyName(name: string) | SeveralCabinets | UnknownCabinet

  /** A rendered template, a redirect (with its flash message, if any), or an uncaught exception. */
  datatype Response = Rendered(page: Page) | RedirectTo(target: Page, notice: Option<Notice>) | ServerError

  predicate CabinetIdsIncreasing(cabinets: seq<Cabinet>)
  {
    forall i, j :: 0 <= i < j < |cabinets| ==> cabinets[i].id < cabinets[j].id
  }

  /** `name` is declared `unique=True`. */
  predicate NamesUnique(cabinets: seq<Cabinet>)
  {
    forall i, j :: 0 <= i < j < |cabinets| ==> cabinets[i].name != cabinets[j].name
  }

  predicate NameTaken(cabinets: seq<Cabinet>, name: string)
  {
    exists c :: c in cabinets && c.name == name
  }

  predicate CabinetExists(cabinets: seq<Cabinet>, id: nat)
  {
    exists c :: c in cabinets && c.id == id
  }

  /** `Cabinet.objects.filter(name=name).first()`. */
  function CabinetNamed(cabinets: seq<Cabinet>, name: string): (r: Option<Cabinet>)
    ensures r.Some? <==> NameTaken(cabinets, name)
    ensures r.Some? ==> r.value in cabinets && r.value.name == name
    decreases |cabinets|
  {
    if |cabinets| == 0 then None
    else if cabinets[0].name == name then Some(cabinets[0])
    else CabinetNamed(cabinets[1..], name)
  }

  /** `Associate.objects.get(user_id=userId)`, None standing for DoesNotExist. */
  function AssociationOf(associates: seq<Associate>, userId: nat): (r: Option<Associate>)
    ensures r.Some? ==> r.value in associates && r.value.userId == userId
    ensures r.None? ==> forall a :: a in associates ==> a.userId != userId
    decreases |associates|
  {
    if |associates| == 0 then None
    else if associates[0].userId == userId then Some(associates[0])
    else AssociationOf(associates[1..], userId)
  }

  /** `Associate.objects.filter(cabinet_id=cabinetId).first()`: the earliest row, in primary-key
      order, of that cabinet. */
  function FirstAssociateOf(associates: seq<Associate>, cabinetId: nat): (r: Option<Associate>)
    ensures r.None? <==> forall a :: a in associates ==> a.cabinetId != cabinetId
    ensures r.Some? ==> r.value.cabinetId == cabinetId
    ensures r.Some? ==> exists k :: (0 <= k < |associates| && associates[k] == r.value
                                     && forall j :: 0 <= j < k ==> associates[j].cabinetId != cabinetId)
    decreases |associates|
  {
    if |associates| == 0 then None
    else if associates[0].cabinetId == cabinetId then Some(associates[0])
    else
      var r := FirstAssociateOf(associates[1..], cabinetId);
      if r.Some? then
        assert exists k :: (0 <= k < |associates| && associates[k] == r.value
                            && forall j :: 0 <= j < k ==> associates[j].cabinetId != cabinetId) by {
          var k :| 0 <= k < |associates[1..]| && associates[1..][k] == r.value
            && forall j :: 0 <= j < k ==> associates[1..][j].cabinetId != cabinetId;
          assert associates[k + 1] == r.value;
          forall j | 0 <= j < k + 1 ensures associates[j].cabinetId != cabinetId {
            if j > 0 {
              assert associates[j] == associates[1..][j - 1];
            }
          }
        }
        r
      else r
  }

  predicate HasRequestFrom(requests: seq<AssociationRequest>, sender: nat)
  {
    exists q :: q in requests && q.senderId == sender
  }

  /** `get_or_create` and the pending-request guard keep at most one request per sender. */
  predicate OneRequestPerSender(requests: seq<AssociationRequest>)
  {
    forall i, j :: 0 <= i < j < |requests| ==> requests[i].senderId != requests[j].senderId
  }

  /** The two `RequestAssociate.objects.filter(...).delete()` queries of the views. */
  datatype RequestSelector = SentBy(sender: nat) | ForCabinetFrom(cabinetId: nat, sender: nat)

  predicate Selects(sel: RequestSelector, q: AssociationRequest)
  {
    match sel
    case SentBy(s) => q.senderId == s
    case ForCabinetFrom(c, s) => q.cabinetId == c && q.senderId == s
  }

  /** The requests left once the selected ones are deleted: exactly the unselected ones. */
  function RemoveRequests(requests: seq<AssociationRequest>, sel: RequestSelector): (r: seq<AssociationRequest>)
    ensures forall q :: q in r <==> q in requests && !Selects(sel, q)
    ensures |r| <= |requests|
    decreases |requests|
  {
    if |requests| == 0 then []
    else (if Selects(sel, requests[0]) then [] else [requests[0]]) + RemoveRequests(requests[1..], sel)
  }

  /** Deleting requests never breaks the one-request-per-sender property. */
  lemma {:induction false} RemoveRequestsKeepsOnePerSender(requests: seq<AssociationRequest>, sel: RequestSelector)
    requires OneRequestPerSender(requests)
    ensures OneRequestPerSender(RemoveRequests(requests, sel))
    decreases |requests|
  {
    if |requests| > 0 {
      RemoveRequestsKeepsOnePerSender(requests[1..], sel);
      var rest := RemoveRequests(requests[1..], sel);
      if !Selects(sel, requests[0]) {
        var r := [requests[0]] + rest;
        forall i, j | 0 <= i < j < |r| ensures r[i].senderId != r[j].senderId {
          if i == 0 {
            assert r[j] == rest[j - 1];
            assert rest[j - 1] in requests[1..];
            var k :| 0 <= k < |requests[1..]| && requests[1..][k] == rest[j - 1];
            assert requests[k + 1] == r[j];
          } else {
            assert r[i] == rest[i - 1] && r[j] == rest[j - 1];
          }
        }
      }
    }
  }

  /** Deleting the same selection twice deletes nothing more. */
  lemma {:induction false} RemoveRequestsIdempotent(requests: seq<AssociationRequest>, sel: RequestSelector)
    ensures RemoveRequests(RemoveRequests(requests, sel), sel) == RemoveRequests(requests, sel)
    decreases |requests|
  {
    if |requests| > 0 {
      RemoveRequestsIdempotent(requests[1..], sel);
      var rest := RemoveRequests(requests[1..], sel);
      if !Selects(sel, requests[0]) {
        var once := [requests[0]] + rest;
        assert once[0] == requests[0] && once[1..] == rest;
        assert RemoveRequests(once, sel) == [requests[0]] + RemoveRequests(rest, sel);
      } else {
        assert RemoveRequests(requests, sel) == [] + rest == rest;
      }
    }
  }

  /** Cancelling every demand of a sender subsumes declining that sender for one cabinet first. */
  lemma {:induction false} CancelSubsumesDecline(requests: seq<AssociationRequest>, cabinetId: nat, sender: nat)
    ensures RemoveRequests(RemoveRequests(requests, ForCabinetFrom(cabinetId, sender)), SentBy(sender))
         == RemoveRequests(requests, SentBy(sender))
    decreases |requests|
  {
    if |requests| > 0 {
      CancelSubsumesDecline(requests[1..], cabinetId, sender);
      var rest := RemoveRequests(requests[1..], ForCabinetFrom(cabinetId, sender));
      if !Selects(ForCabinetFrom(cabinetId, sender), requests[0]) {
        var once := [requests[0]] + rest;
        assert once[0] == requests[0] && once[1..] == rest;
        assert RemoveRequests(once, SentBy(sender))
            == (if Selects(SentBy(sender), requests[0]) then [] else [requests[0]]) + RemoveRequests(rest, SentBy(sender));
      } else {
        assert RemoveRequests(requests, ForCabinetFrom(cabinetId, sender)) == [] + rest == rest;
        assert RemoveRequests(requests, SentBy(sender)) == [] + RemoveRequests(requests[1..], SentBy(sender));
      }
    }
  }

  /** `Cabinet.objects.filter(name__icontains=term)`, in primary-key order. */
  function MatchingCabinets(cabinets: seq<Cabinet>, term: string): (r: seq<Cabinet>)
    ensures forall c :: c in r <==> c in cabinets && ContainsIgnoringCase(c.name, term)
    ensures |r| <= |cabinets|
    decreases |cabinets|
  {
    if |cabinets| == 0 then []
    else
      (if ContainsIgnoringCase(cabinets[0].name, term) then [cabinets[0]] else [])
      + MatchingCabinets(cabinets[1..], term)
  }

  /** A lower bound on every key of the input bounds every key of the matches. */
  lemma {:induction false} MatchingCabinetsAbove(cabinets: seq<Cabinet>, term: string, bound: int)
    requires forall k :: 0 <= k < |cabinets| ==> bound < cabinets[k].id
    ensures forall k :: 0 <= k < |MatchingCabinets(cabinets, term)| ==> bound < MatchingCabinets(cabinets, term)[k].id
    decreases |cabinets|
  {
    if |cabinets| > 0 {
      MatchingCabinetsAbove(cabinets[1..], term, bound);
    }
  }

  lemma {:induction false} MatchingCabinetsOrdered(cabinets: seq<Cabinet>, term: string)
    requires CabinetIdsIncreasing(cabinets)
    ensures CabinetIdsIncreasing(MatchingCabinets(cabinets, term))
    decreases |cabinets|
  {
    if |cabinets| > 0 {
      var tail := cabinets[1..];
      assert CabinetIdsIncreasing(tail) by {
        forall i, j | 0 <= i < j < |tail| ensures tail[i].id < tail[j].id {
          assert tail[i] == cabinets[i + 1] && tail[j] == cabinets[j + 1];
        }
      }
      MatchingCabinetsOrdered(tail, term);
      assert forall k :: 0 <= k < |tail| ==> cabinets[0].id < tail[k].id by {
        forall k | 0 <= k < |tail| ensures cabinets[0].id < tail[k].id {
          assert tail[k] == cabinets[k + 1];
        }
      }
      MatchingCabinetsAbove(tail, term, cabinets[0].id);
    }
  }

  /** How many suggestions the autocomplete slice `[:10]` keeps. */
  const SuggestionLimit := 10

  /** The autocomplete answer: the names of the first ten matching cabinets, by id. */
  function Suggestions(cabinets: seq<Cabinet>, term: string): (r: seq<string>)
    ensures |r| <= SuggestionLimit
    ensures |r| == if |MatchingCabinets(cabinets, term)| < SuggestionLimit
                   then |MatchingCabinets(cabinets, term)| else SuggestionLimit
    ensures forall k :: 0 <= k < |r| ==> r[k] == MatchingCabinets(cabinets, term)[k].name
    ensures forall n :: n in r ==> ContainsIgnoringCase(n, term)
  {
    var ms := MatchingCabinets(cabinets, term);
    var n := if |ms| < SuggestionLimit then |ms| else SuggestionLimit;
    var r := seq(n, k requires 0 <= k < n => ms[k].name);
    assert forall k :: 0 <= k < n ==> ms[k] in ms;
    r
  }

  /** The suggested cabinets are the lowest-id matches: any matching cabinet left out has a larger id
      than every suggested one. */
  lemma SuggestionsAreLowestIds(cabinets: seq<Cabinet>, term: string, c: Cabinet)
    requires CabinetIdsIncreasing(cabinets)
    requires c in cabinets && ContainsIgnoringCase(c.name, term)
    requires c !in MatchingCabinets(cabinets, term)[..|Suggestions(cabinets, term)|]
    ensures forall k :: 0 <= k < |Suggestions(cabinets, term)| ==> MatchingCabinets(cabinets, term)[k].id < c.id
  {
    var ms := MatchingCabinets(cabinets, term);
    var n := |Suggestions(cabinets, term)|;
    MatchingCabinetsOrdered(cabinets, term);
    assert c in ms;
    var j :| 0 <= j < |ms| && ms[j] == c;
  }

  /** With at most ten matches, every matching cabinet is suggested. */
  lemma SuggestionsComplete(cabinets: seq<Cabinet>, term: string, c: Cabinet)
    requires |MatchingCabinets(cabinets, term)| <= SuggestionLimit
    requires c in cabinets && ContainsIgnoringCase(c.name, term)
    ensures c.name in Suggestions(cabinets, term)
  {
    var ms := MatchingCabinets(cabinets, term);
    assert c in ms;
    var j :| 0 <= j < |ms| && ms[j] == c;
    assert Suggestions(cabinets, term)[j] == c.name;
  }

  /** The `Cabinet` table: increasing keys below the next key to assign, and unique names. */
  predicate CabinetTableValid(cabinets: seq<Cabinet>, nextId: nat)
  {
    CabinetIdsIncreasing(cabinets) && (forall c :: c in cabinets ==> c.id < nextId) && NamesUnique(cabinets)
  }

  /** The `Associate` table: one row per user (the one-to-one field), each pointing at a registered
      user and an existing cabinet. */
  predicate AssociateTableValid(associates: seq<Associate>, users: set<nat>, cabinets: seq<Cabinet>)
  {
    (forall i, j :: 0 <= i < j < |associates| ==> associates[i].userId != associates[j].userId)
    && forall a :: a in associates ==> a.userId in users && CabinetExists(cabinets, a.cabinetId)
  }

  /** Appending a cabinet with the next key and an untaken name keeps the table valid; the associate
      rows still point at existing cabinets, and the new cabinet exists. */
  lemma AppendCabinetKeepsTables(cabinets: seq<Cabinet>, nextId: nat, name: string,
                                 associates: seq<Associate>, users: set<nat>)
    requires CabinetTableValid(cabinets, nextId) && !NameTaken(cabinets, name)
    requires AssociateTableValid(associates, users, cabinets)
    ensures CabinetTableValid(cabinets + [Cabinet(nextId, name)], nextId + 1)
    ensures AssociateTableValid(associates, users, cabinets + [Cabinet(nextId, name)])
    ensures CabinetExists(cabinets + [Cabinet(nextId, name)], nextId)
  {
    var added := cabinets + [Cabinet(nextId, name)];
    assert added[|cabinets|] == Cabinet(nextId, name);
    forall i, j | 0 <= i < j < |added|
      ensures added[i].id < added[j].id && added[i].name != added[j].name
    {
      if j == |cabinets| {
        assert added[i] == cabinets[i] && cabinets[i] in cabinets;
      }
    }
    forall a | a in associates ensures CabinetExists(added, a.cabinetId) {
      var c :| c in cabinets && c.id == a.cabinetId;
      assert c in added;
    }
  }

  /** A new associate row for an unaffiliated registered user and an existing cabinet keeps the
      table valid. */
  lemma AppendAssociateKeepsTable(associates: seq<Associate>, users: set<nat>, cabinets: seq<Cabinet>, a: Associate)
    requires AssociateTableValid(associates, users, cabinets)
    requires AssociationOf(associates, a.userId).None?
    requires a.userId in users && CabinetExists(cabinets, a.cabinetId)
    ensures AssociateTableValid(associates + [a], users, cabinets)
  {
    var added := associates + [a];
    forall i, j | 0 <= i < j < |added| ensures added[i].userId != added[j].userId {
      if j == |associates| {
        assert added[i] == associates[i] && associates[i] in associates;
      } else {
        assert added[i] == associates[i] && added[j] == associates[j];
      }
    }
  }

  /** A request from a sender with no pending request keeps one request per sender. */
  lemma AppendRequestKeepsOnePerSender(requests: seq<AssociationRequest>, q: AssociationRequest)
    requires OneRequestPerSender(requests) && !HasRequestFrom(requests, q.senderId)
    ensures OneRequestPerSender(requests + [q])
  {
    var added := requests + [q];
    forall i, j | 0 <= i < j < |added| ensures added[i].senderId != added[j].senderId {
      if j == |requests| {
        assert added[i] == requests[i] && requests[i] in requests;
      } else {
        assert added[i] == requests[i] && added[j] == requests[j];
      }
    }
  }

  class CabinetDb {
    /** Registered users (their creation is not part of this model). */
    var users: set<nat>
    /** The users whose `is_cabinet_owner` flag is set. */
    var owners: set<nat>
    var cabinets: seq<Cabinet>
    var nextCabinetId: nat
    var associates: seq<Associate>
    var requests: seq<AssociationRequest>

    /** The table constraints: increasing and unique cabinet keys, unique names, one association per
        user pointing at a registered user and an existing cabinet, owners registered, and at most one
        pending request per sender. */
    ghost predicate Valid()
      reads this
    {
      CabinetTableValid(cabinets, nextCabinetId)
      && AssociateTableValid(associates, users, cabinets)
      && owners <= users
      && OneRequestPerSender(requests)
    }

    constructor (registered: set<nat>)
      ensures Valid()
      ensures users == registered && owners == {} && nextCabinetId == 0
      ensures cabinets == [] && associates == [] && requests == []
    {
      users := registered;
      owners := {};
      cabinets := [];
      nextCabinetId := 0;
      associates := [];
      requests := [];
    }

    /** `autocomplete`: the suggestions for `term` on a GET. Any other method leaves the result
        variable unbound and the view fails, which is None here. */
    function Autocomplete(isGet: bool, term: string): (r: Option<seq<string>>)
      reads this
      ensures r.None? <==> !isGet
      ensures r.Some? ==> r.value == Suggestions(cabinets, term)
      ensures r.Some? ==> |r.value| <= SuggestionLimit
      ensures r.Some? ==> forall n :: n in r.value ==> NameTaken(cabinets, n) && ContainsIgnoringCase(n, term)
    {
      if isGet then
        var s := Suggestions(cabinets, term);
        assert forall k :: 0 <= k < |s| ==> MatchingCabinets(cabinets, term)[k] in MatchingCabinets(cabinets, term);
        Some(s)
      else None
    }

    /** `create_new_cabinet`. A taken name creates nothing and sends an owner to the profile, anyone
        else to the ask-for page with the name to copy. A new non-empty name creates the cabinet and
        sets the owner flag, then links the user to it; when the user is already linked to a
        cabinet that last insert fails, and the first two writes, already committed, stay. */
    method CreateNewCabinet(user: nat, isPost: bool, formValid: bool, name: string) returns (r: Response)
      requires Valid() && user in users
      modifies this
      ensures Valid()
      ensures !(isPost && formValid) ==> r == Rendered(CreateCabinetPage) && unchanged(this)
      ensures isPost && formValid && NameTaken(old(cabinets), name) ==>
        unchanged(this)
        && r == if user in old(owners) then RedirectTo(ProfilePage, None)
                else RedirectTo(AskForPage, Some(CopyName(name)))
      ensures isPost && formValid && !NameTaken(old(cabinets), name) && name == "" ==>
        r == Rendered(CreateCabinetPage) && unchanged(this)
      ensures isPost && formValid && !NameTaken(old(cabinets), name) && name != "" ==>
        cabinets == old(cabinets) + [Cabinet(old(nextCabinetId), name)]
        && nextCabinetId == old(nextCabinetId) + 1
        && owners == old(owners) + {user}
        && users == old(users) && requests == old(requests)
        && (AssociationOf(old(associates), user).Some? ==> associates == old(associates) && r == ServerError)
        && (AssociationOf(old(associates), user).None? ==>
              associates == old(associates) + [Associate(user, old(nextCabinetId))]
              && r == RedirectTo(ProfilePage, None))
    {
      if !(isPost && formValid) {
        r := Rendered(CreateCabinetPage);
      } else if CabinetNamed(cabinets, name).Some? {
        r := if user in owners then RedirectTo(ProfilePage, None)
             else RedirectTo(AskForPage, Some(CopyName(name)));
      } else if name == "" {
        r := Rendered(CreateCabinetPage);
      } else {
        r := InsertCabinet(user, name);
      }
    }

    /** The writes of `create_new_cabinet` for a new name, in order: the cabinet, the owner flag,
        then the associate row, whose insert fails when the user is already affiliated. */
    method InsertCabinet(user: nat, name: string) returns (r: Response)
      requires Valid() && user in users && !NameTaken(cabinets, name)
      modifies this
      ensures Valid()
      ensures cabinets == old(cabinets) + [Cabinet(old(nextCabinetId), name)]
      ensures nextCabinetId == old(nextCabinetId) + 1
      ensures owners == old(owners) + {user} && users == old(users) && requests == old(requests)
      ensures AssociationOf(old(associates), user).Some? ==> associates == old(associates) && r == ServerError
      ensures AssociationOf(old(associates), user).None? ==>
        associates == old(associates) + [Associate(user, old(nextCabinetId))] && r == RedirectTo(ProfilePage, None)
    {
      var cabinet := Cabinet(nextCabinetId, name);
      AppendCabinetKeepsTables(cabinets, nextCabinetId, name, associates, users);
      cabinets := cabinets + [cabinet];
      nextCabinetId := nextCabinetId + 1;
      owners := owners + {user};
      if AssociationOf(associates, user).Some? {
        return ServerError;
      }
      AppendAssociateKeepsTable(associates, users, cabinets, Associate(user, cabinet.id));
      associates := associates + [Associate(user, cabinet.id)];
      return RedirectTo(ProfilePage, None);
    }

    /** `ask_for_associate`. A request to the cabinet's first member is created exactly when the
        cabinet exists, the user is not an owner and has no pending request; an existing cabinet
        with an owner or pending sender gets the several-cabinets notice, an unknown name its own. */
    method AskForAssociate(user: nat, isPost: bool, formValid: bool, name: string) returns (r: Response)
      requires Valid() && user in users
      modifies this
      ensures Valid()
      ensures users == old(users) && owners == old(owners) && cabinets == old(cabinets)
        && nextCabinetId == old(nextCabinetId) && associates == old(associates)
      ensures !(isPost && formValid) ==> r == Rendered(AskForPage) && requests == old(requests)
      ensures isPost && formValid && !NameTaken(old(cabinets), name) ==>
        r == RedirectTo(AskForPage, Some(UnknownCabinet)) && requests == old(requests)
      ensures (isPost && formValid && NameTaken(old(cabinets), name)
        && (user in old(owners) || HasRequestFrom(old(requests), user))) ==>
        r == RedirectTo(AskForPage, Some(SeveralCabinets)) && requests == old(requests)
      ensures (isPost && formValid && NameTaken(old(cabinets), name)
        && user !in old(owners) && !HasRequestFrom(old(requests), user)) ==>
        var cabinet := CabinetNamed(old(cabinets), name).value;
        match FirstAssociateOf(old(associates), cabinet.id)
        case None => r == ServerError && requests == old(requests)
        case Some(a) =>
          r == RedirectTo(ProfilePage, None)
          && requests == old(requests) + [AssociationRequest(user, a.userId, cabinet.id)]
    {
      if !(isPost && formValid) {
        return Rendered(AskForPage);
      }
      var named := CabinetNamed(cabinets, name);
      var pending := HasRequestFrom(requests, user);
      if named.Some? && user !in owners && !pending {
        var first := FirstAssociateOf(associates, named.value.id);
        if first.None? {
          return ServerError;
        }
        var request := AssociationRequest(user, first.value.userId, first.value.cabinetId);
        // get_or_create: a row equal to `request` would be a pending request from the user.
        if request !in requests {
          AppendRequestKeepsOnePerSender(requests, request);
          requests := requests + [request];
        }
        return RedirectTo(ProfilePage, None);
      } else if named.Some? {
        return RedirectTo(AskForPage, Some(SeveralCabinets));
      }
      return RedirectTo(AskForPage, Some(UnknownCabinet));
    }

    /** `confirm_associate`, run by a member of a cabinet. A posted sender becomes a member of that
        cabinet, their requests to it are deleted and their owner flag is set — whatever `choice`
        says, since the source's test of it always holds. A user without an association, or a
        sender who is unknown or already a member, makes the view fail; in the latter case the
        failing insert is the first write, so nothing changes. */
    method ConfirmAssociate(user: nat, isPost: bool, formValid: bool, sender: Option<nat>, choice: string)
      returns (r: Response)
      requires Valid()
      modifies this
      ensures Valid()
      ensures users == old(users) && cabinets == old(cabinets) && nextCabinetId == old(nextCabinetId)
      ensures AssociationOf(old(associates), user).None? ==> r == ServerError && unchanged(this)
      ensures AssociationOf(old(associates), user).Some? && !(isPost && formValid && sender.Some?) ==>
        r == Rendered(ProfilePage) && unchanged(this)
      ensures (AssociationOf(old(associates), user).Some? && isPost && formValid && sender.Some?
        && (sender.value !in old(users) || AssociationOf(old(associates), sender.value).Some?)) ==>
        r == ServerError && unchanged(this)
      ensures (AssociationOf(old(associates), user).Some? && isPost && formValid && sender.Some?
        && sender.value in old(users) && AssociationOf(old(associates), sender.value).None?) ==>
        var cabinetId := AssociationOf(old(associates), user).value.cabinetId;
        r == RedirectTo(ProfilePage, None)
        && associates == old(associates) + [Associate(sender.value, cabinetId)]
        && requests == RemoveRequests(old(requests), ForCabinetFrom(cabinetId, sender.value))
        && owners == old(owners) + {sender.value}
    {
      var own := AssociationOf(associates, user);
      if own.None? {
        return ServerError;
      }
      if !(isPost && formValid && sender.Some?) {
        return Rendered(ProfilePage);
      }
      var s := sender.value;
      if s !in users || AssociationOf(associates, s).Some? {
        return ServerError;
      }
      var cabinetId := own.value.cabinetId;
      AppendAssociateKeepsTable(associates, users, cabinets, Associate(s, cabinetId));
      associates := associates + [Associate(s, cabinetId)];
      RemoveRequestsKeepsOnePerSender(requests, ForCabinetFrom(cabinetId, s));
      requests := RemoveRequests(requests, ForCabinetFrom(cabinetId, s));
      owners := owners + {s};
      return RedirectTo(ProfilePage, None);
    }

    /** `decline_associate`: the posted sender's requests to the member's cabinet are deleted, and
        nothing else. A missing sender (`int(None)`) or a user without an association makes the view
        fail. */
    method DeclineAssociate(user: nat, isPost: bool, formValid: bool, sender: Option<nat>) returns (r: Response)
      requires Valid()
      modifies this
      ensures Valid()
      ensures users == old(users) && owners == old(owners) && cabinets == old(cabinets)
        && nextCabinetId == old(nextCabinetId) && associates == old(associates)
      ensures AssociationOf(old(associates), user).None? ==> r == ServerError && requests == old(requests)
      ensures AssociationOf(old(associates), user).Some? && !(isPost && formValid) ==>
        r == Rendered(ProfilePage) && requests == old(requests)
      ensures AssociationOf(old(associates), user).Some? && isPost && formValid && sender.None? ==>
        r == ServerError && requests == old(requests)
      ensures AssociationOf(old(associates), user).Some? && isPost && formValid && sender.Some? ==>
        r == RedirectTo(ProfilePage, None)
        && requests == RemoveRequests(old(requests),
                         ForCabinetFrom(AssociationOf(old(associates), user).value.cabinetId, sender.value))
    {
      var own := AssociationOf(associates, user);
      if own.None? {
        return ServerError;
      }
      if !(isPost && formValid) {
        return Rendered(ProfilePage);
      }
      if sender.None? {
        return ServerError;
      }
      RemoveRequestsKeepsOnePerSender(requests, ForCabinetFrom(own.value.cabinetId, sender.value));
      requests := RemoveRequests(requests, ForCabinetFrom(own.value.cabinetId, sender.value));
      return RedirectTo(ProfilePage, None);
    }

    /** `cancel_associate_demand`: every request the user sent is deleted. */
    method CancelAssociateDemand(user: nat, isPost: bool, formValid: bool) returns (r: Response)
      requires Valid()
      modifies this
      ensures Valid()
      ensures users == old(users) && owners == old(owners) && cabinets == old(cabinets)
        && nextCabinetId == old(nextCabinetId) && associates == old(associates)
      ensures !(isPost && formValid) ==> r == Rendered(ProfilePage) && requests == old(requests)
      ensures isPost && formValid ==>
        r == RedirectTo(ProfilePage, None) && requests == RemoveRequests(old(requests), SentBy(user))
        && !HasRequestFrom(requests, user)
    {
      if !(isPost && formValid) {
        return Rendered(ProfilePage);
      }
      RemoveRequestsKeepsOnePerSender(requests, SentBy(user));
      requests := RemoveRequests(requests, SentBy(user));
      return RedirectTo(ProfilePage, None);
    }
  }
}
