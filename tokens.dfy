/** The `tokens` table of server/index.js (lines 103-111) and its upsert and
    delete handlers (lines 552-616): service tokens stored at most once per
    (service, project) pair. */
module TokenStore {
  import opened Common

  /** A row of `tokens`, without its id (the map key). */
  datatype Token = Token(
    service: string,
    project: string,
    description: Option<string>,
    token: string,
    createdAt: int,
    updatedAt: int)

  datatype Action = Created | Updated
  datatype Saved = Saved(id: string, action: Action)

  /** At most one row per (service, project). */
  ghost predicate OnePerPair(tokens: map<string, Token>) {
    forall a, b :: a in tokens && b in tokens && a != b ==>
      tokens[a].service != tokens[b].service || tokens[a].project != tokens[b].project
  }

  /** The ids of the rows `WHERE service = ? AND project = ?` selects. */
  function PairIds(tokens: map<string, Token>, service: string, project: string): set<string> {
    set id | id in tokens && tokens[id].service == service && tokens[id].project == project
  }

  /** The ids of the rows `WHERE service = ?` selects. */
  function ServiceIds(tokens: map<string, Token>, service: string): set<string> {
    set id | id in tokens && tokens[id].service == service
  }

  /** Under the invariant a pair selects at most one row. */
  lemma PairIdsAtMostOne(tokens: map<string, Token>, service: string, project: string, a: string, b: string)
    requires OnePerPair(tokens)
    requires a in PairIds(tokens, service, project) && b in PairIds(tokens, service, project)
    ensures a == b
  {
  }

  class Tokens {
    var tokens: map<string, Token>

    ghost predicate Valid()
      reads this
    {
      OnePerPair(tokens)
    }

    constructor ()
      ensures Valid() && tokens == map[]
    {
      tokens := map[];
    }

    /** POST /api/tokens (server/index.js:552-580). An existing row for the
        pair keeps its id and takes the new token and description; otherwise
        a new `tok_` row is inserted. Either way the pair then selects exactly
        the answered row, and it holds the new token. */
    method Upsert(
      service: Option<string>, project: Option<string>, description: Option<string>, token: Option<string>,
      idSuffix: string, now: int)
      returns (reply: Reply<Saved>)
      requires Valid()
      requires "tok_" + idSuffix !in tokens
      modifies this
      ensures Valid()
      ensures !(Truthy(service) && Truthy(project) && Truthy(token)) ==>
        reply == BadRequest("Service, project, and token are required") && tokens == old(tokens)
      ensures reply.Ok? <==> Truthy(service) && Truthy(project) && Truthy(token)
      ensures reply.Ok? ==>
        && (reply.value.action == Updated <==> PairIds(old(tokens), service.value, project.value) != {})
        && PairIds(tokens, service.value, project.value) == {reply.value.id}
        && tokens[reply.value.id].token == token.value
      ensures reply.Ok? && reply.value.action == Updated ==>
        && reply.value.id in PairIds(old(tokens), service.value, project.value)
        && tokens == old(tokens)[reply.value.id := old(tokens)[reply.value.id].(
             token := token.value, description := OrNull(description), updatedAt := Seconds(now))]
      ensures reply.Ok? && reply.value.action == Created ==>
        && reply.value.id == "tok_" + idSuffix
        && tokens == old(tokens)["tok_" + idSuffix :=
             Token(service.value, project.value, OrNull(description), token.value, Seconds(now), Seconds(now))]
    {
      if !(Truthy(service) && Truthy(project) && Truthy(token)) {
        return BadRequest("Service, project, and token are required");
      }
      var existing := PairIds(tokens, service.value, project.value);
      if existing != {} {
        var id :| id in existing;
        tokens := tokens[id := tokens[id].(token := token.value, description := OrNull(description), updatedAt := Seconds(now))];
        assert PairIds(tokens, service.value, project.value) == {id} by {
          forall x | x in PairIds(tokens, service.value, project.value) ensures x == id {
            PairIdsAtMostOne(old(tokens), service.value, project.value, x, id);
          }
        }
        reply := Ok(Saved(id, Updated));
      } else {
        var id := "tok_" + idSuffix;
        forall b | b in tokens ensures tokens[b].service != service.value || tokens[b].project != project.value {
          assert b !in existing;
        }
        tokens := tokens[id := Token(service.value, project.value, OrNull(description), token.value, Seconds(now), Seconds(now))];
        assert PairIds(tokens, service.value, project.value) == {id};
        reply := Ok(Saved(id, Created));
      }
    }

    /** DELETE /api/tokens/:id (server/index.js:583-592). */
    method DeleteById(id: string) returns (reply: Reply<()>)
      requires Valid()
      modifies this
      ensures Valid()
      ensures tokens == old(tokens) - {id}
      ensures reply.Ok? <==> id in old(tokens)
      ensures !reply.Ok? ==> reply == NotFound("Token not found")
    {
      if id in tokens {
        tokens := tokens - {id};
        reply := Ok(());
      } else {
        reply := NotFound("Token not found");
      }
    }

    /** DELETE /api/tokens/service/:service (server/index.js:595-604): removes
        every project's row for the service and reports how many went. */
    method DeleteService(service: string) returns (reply: Reply<nat>)
      requires Valid()
      modifies this
      ensures Valid()
      ensures tokens == old(tokens) - ServiceIds(old(tokens), service)
      ensures forall id :: id in tokens ==> tokens[id].service != service
      ensures ServiceIds(old(tokens), service) == {} ==> reply == NotFound("Token not found for service")
      ensures ServiceIds(old(tokens), service) != {} ==> reply == Ok(|ServiceIds(old(tokens), service)|)
    {
      var removed := ServiceIds(tokens, service);
      tokens := tokens - removed;
      if |removed| > 0 {
        reply := Ok(|removed|);
      } else {
        reply := NotFound("Token not found for service");
      }
    }

    /** DELETE /api/tokens/service/:service/project/:project (server/index.js:607-616). */
    method DeleteServiceProject(service: string, project: string) returns (reply: Reply<()>)
      requires Valid()
      modifies this
      ensures Valid()
      ensures tokens == old(tokens) - PairIds(old(tokens), service, project)
      ensures PairIds(tokens, service, project) == {}
      ensures reply.Ok? <==> PairIds(old(tokens), service, project) != {}
      ensures !reply.Ok? ==> reply == NotFound("Token not found for service/project")
    {
      var removed := PairIds(tokens, service, project);
      tokens := tokens - removed;
      if removed != {} {
        reply := Ok(());
      } else {
        reply := NotFound("Token not found for service/project");
      }
    }
  }
}
