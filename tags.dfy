/** The tag catalogue: tags are found by id or by name, and both creating
    and renaming a tag are refused when the name is already in use. */
module Tags {
  import opened Outcomes

  datatype Tag = Tag(id: int, name: string)

  datatype TagRequest = TagRequest(name: string)

  /** `repository.existsByName`. */
  predicate NameTaken(tags: map<int, Tag>, name: string)
  {
    exists id :: id in tags && tags[id].name == name
  }

  /** No two stored tags share a name. */
  ghost predicate DistinctNames(tags: map<int, Tag>)
  {
    forall a, b :: a in tags && b in tags && tags[a].name == tags[b].name ==> a == b
  }

  /** Adding or renaming a tag to a name nobody uses keeps names distinct. */
  lemma FreshNameKeepsDistinct(tags: map<int, Tag>, id: int, name: string)
    requires DistinctNames(tags) && !NameTaken(tags, name)
    ensures DistinctNames(tags[id := Tag(id, name)])
  {
    var updated := tags[id := Tag(id, name)];
    forall a, b | a in updated && b in updated && updated[a].name == updated[b].name
      ensures a == b
    {
      if a != id && b != id {
        assert tags[a].name == tags[b].name;
      }
    }
  }

  /** Renaming a stored tag to its own current name is refused, because that
      name is in use. */
  lemma OwnNameIsTaken(tags: map<int, Tag>, id: int)
    requires id in tags
    ensures NameTaken(tags, tags[id].name)
  {
  }

  class TagService {
    var tags: map<int, Tag>
    var nextId: int

    /** Every tag is stored under its own id, below the next id to hand out,
        and tag names are distinct. */
    ghost predicate Valid()
      reads this
    {
      && (forall id :: id in tags ==> tags[id].id == id && id < nextId)
      && DistinctNames(tags)
    }

    constructor ()
      ensures Valid() && tags == map[]
    {
      tags := map[];
      nextId := 1;
    }

    /** `findOne(Long)`. */
    method FindById(tagId: int) returns (r: Outcome<Tag>)
      requires Valid()
      ensures r.Ok? <==> tagId in tags
      ensures r.Ok? ==> r.value == tags[tagId] && r.value.id == tagId
      ensures r.Err? ==> r.error == NotFound(TagId(tagId))
    {
      if tagId in tags {
        r := Ok(tags[tagId]);
      } else {
        r := Err(NotFound(TagId(tagId)));
      }
    }

    /** `findOne(String)`. */
    method FindByName(tagName: string) returns (r: Outcome<Tag>)
      requires Valid()
      ensures r.Ok? <==> NameTaken(tags, tagName)
      ensures r.Ok? ==> r.value.name == tagName && r.value.id in tags && tags[r.value.id] == r.value
      ensures r.Err? ==> r.error == NotFound(TagName(tagName))
    {
      if id :| id in tags && tags[id].name == tagName {
        r := Ok(tags[id]);
      } else {
        r := Err(NotFound(TagName(tagName)));
      }
    }

    method CheckTagNameUnique(tagName: string) returns (r: Outcome<()>)
      ensures r.Ok? <==> !NameTaken(tags, tagName)
      ensures r.Err? ==> r.error == Duplicate(TagName(tagName))
    {
      if NameTaken(tags, tagName) {
        r := Err(Duplicate(TagName(tagName)));
      } else {
        r := Ok(());
      }
    }

    /** Adds one tag with the requested name under a fresh id, unless the
        name is in use. */
    method Save(request: TagRequest) returns (r: Outcome<Tag>)
      requires Valid()
      modifies this
      ensures Valid()
      ensures NameTaken(old(tags), request.name) ==>
        r == Err(Duplicate(TagName(request.name))) && tags == old(tags) && nextId == old(nextId)
      ensures !NameTaken(old(tags), request.name) ==>
        && r == Ok(Tag(old(nextId), request.name))
        && old(nextId) !in old(tags)
        && tags == old(tags)[old(nextId) := r.value]
        && nextId == old(nextId) + 1
    {
      var unique := CheckTagNameUnique(request.name);
      if unique.Err? {
        return Err(unique.error);
      }
      FreshNameKeepsDistinct(tags, nextId, request.name);
      var tag := Tag(nextId, request.name);
      tags := tags[nextId := tag];
      nextId := nextId + 1;
      r := Ok(tag);
    }

    /** Renames tag `id`. The name is checked before the id is looked up, so
        a name in use is reported even for an unknown id. */
    method Update(id: int, request: TagRequest) returns (r: Outcome<Tag>)
      requires Valid()
      modifies this
      ensures Valid() && nextId == old(nextId)
      ensures NameTaken(old(tags), request.name) ==>
        r == Err(Duplicate(TagName(request.name))) && tags == old(tags)
      ensures !NameTaken(old(tags), request.name) && id !in old(tags) ==>
        r == Err(NotFound(TagId(id))) && tags == old(tags)
      ensures !NameTaken(old(tags), request.name) && id in old(tags) ==>
        && r == Ok(Tag(id, request.name))
        && tags == old(tags)[id := r.value]
    {
      var unique := CheckTagNameUnique(request.name);
      if unique.Err? {
        return Err(unique.error);
      }
      var found := FindById(id);
      if found.Err? {
        return Err(found.error);
      }
      FreshNameKeepsDistinct(tags, id, request.name);
      var tag := found.value.(name := request.name);
      tags := tags[id := tag];
      r := Ok(tag);
    }

    /** Removes the tag with id `id` and no other; an unknown id is reported
        as NotFound, as `deleteById` throws for it. */
    method Delete(id: int) returns (r: Outcome<()>)
      requires Valid()
      modifies this
      ensures Valid() && nextId == old(nextId)
      ensures r.Ok? <==> id in old(tags)
      ensures r.Ok? ==> tags == old(tags) - {id}
      ensures r.Err? ==> r.error == NotFound(TagId(id)) && tags == old(tags)
    {
      if id !in tags {
        return Err(NotFound(TagId(id)));
      }
      tags := tags - {id};
      r := Ok(());
    }
  }
}
