/**
 The paste store behind the `/save` and `/:id` handlers of src/index.ts.

 The KV namespace is a map from key to the record written under it. `/save`
 reads `title` and `code` from the submitted form, draws a fresh identifier,
 blind-writes `{id, title, code}` under that identifier and redirects to
 `/` followed by the identifier. `/:id` looks the key up, answers not-found
 when nothing is stored there, and otherwise renders the record with the
 highlighting language `data.lang || 'js'`.
 */
module PasteStore {
  import opened Wrappers
  import Nanoid

  /** One name/value pair of the submitted form data. */
  datatype FormEntry = FormEntry(name: string, value: string)

  /** The submitted form, entries in submission order. */
  type Form = seq<FormEntry>

  /**
   The record `/save` writes. `form.get` yields `null` for a missing field,
   hence the optional title and code. There is no `lang` member.
   */
  datatype Paste = Paste(id: string, title: Option<string>, code: Option<string>)

  /** The KV namespace: key to stored record. */
  type Store = map<string, Paste>

  /** One blind write of a record under a key. */
  datatype Write = Write(key: string, paste: Paste)

  /** What `/save` leaves behind: the new store, the redirect target and the unused random bytes. */
  datatype SaveResult = SaveResult(store: Store, location: string, rest: seq<Nanoid.Byte>)

  /** What `/:id` answers: not-found, or the fields handed to the highlighter and template. */
  datatype Response = NotFound | Page(title: Option<string>, code: Option<string>, language: string)

  /** The language used when a record names none. */
  const DefaultLanguage: string := "js"

  // ---------------------------------------------------------------------------
  // Form data and KV primitives

  /** `FormData.get`: the value of the first entry with the given name, or null. */
  function FormGet(form: Form, name: string): (r: Option<string>)
    ensures r.None? <==> forall i :: 0 <= i < |form| ==> form[i].name != name
    ensures r.Some? ==>
              exists i :: 0 <= i < |form| && form[i] == FormEntry(name, r.value) &&
                          forall j :: 0 <= j < i ==> form[j].name != name
  {
    if |form| == 0 then None
    else if form[0].name == name then Some(form[0].value)
    else
      var r := FormGet(form[1..], name);
      if r.Some? then
        var i :| 0 <= i < |form[1..]| && form[1..][i] == FormEntry(name, r.value) &&
                 forall j :: 0 <= j < i ==> form[1..][j].name != name;
        assert form[i + 1] == FormEntry(name, r.value);
        assert forall j :: 0 <= j < i + 1 ==> form[j].name != name by {
          forall j | 0 <= j < i + 1 ensures form[j].name != name {
            if j > 0 { assert form[j] == form[1..][j - 1]; }
          }
        }
        r
      else
        assert forall j :: 0 <= j < |form| ==> form[j].name != name by {
          forall j | 0 <= j < |form| ensures form[j].name != name {
            if j > 0 { assert form[j] == form[1..][j - 1]; }
          }
        }
        r
  }

  /** `KV.get`: the record under `key`, or null when the key was never written. */
  function Get(kv: Store, key: string): (r: Option<Paste>)
    ensures r.Some? <==> key in kv
    ensures r.Some? ==> r.value == kv[key]
  {
    if key in kv then Some(kv[key]) else None
  }

  /** `KV.put`: a blind write. The key now holds `p`; every other key is untouched. */
  function Put(kv: Store, key: string, p: Paste): (r: Store)
    ensures Get(r, key) == Some(p)
    ensures forall k :: k != key ==> Get(r, k) == Get(kv, k)
    ensures r.Keys == kv.Keys + {key}
  {
    kv[key := p]
  }

  /** Writing twice under one key keeps only the second record. */
  lemma PutOverwrites(kv: Store, key: string, p: Paste, q: Paste)
    ensures Put(Put(kv, key, p), key, q) == Put(kv, key, q)
  {
  }

  // ---------------------------------------------------------------------------
  // Language selection

  /**
   `data.lang || 'js'`: a present, non-empty language wins; a missing or
   empty one falls back to `js`. The result is never empty.
   */
  function SelectLanguage(lang: Option<string>): (r: string)
    ensures r != ""
    ensures lang.Some? && lang.value != "" ==> r == lang.value
    ensures lang.None? || lang.value == "" ==> r == DefaultLanguage
  {
    if lang.Some? && lang.value != "" then lang.value else DefaultLanguage
  }

  /** Selecting again from a selected language changes nothing. */
  lemma SelectLanguageIdempotent(lang: Option<string>)
    ensures SelectLanguage(Some(SelectLanguage(lang))) == SelectLanguage(lang)
  {
  }

  /**
   `data.lang` of a stored record: the record `/save` writes has only the
   members `id`, `title` and `code`, so the lookup is always undefined.
   The record is a parameter only to mirror the member lookup `data.lang`.
   */
  function LangField(p: Paste): (r: Option<string>)
    ensures r.None?
  {
    None
  }

  // ---------------------------------------------------------------------------
  // The two handlers

  /**
   `POST /save` with the random stream `source`: the identifier is built
   from the first `Nanoid.DefaultSize` bytes, the record is written under it
   and the redirect target is `/` followed by the identifier.
   */
  function Save(kv: Store, form: Form, source: seq<Nanoid.Byte>): (r: SaveResult)
    requires Nanoid.DefaultSize <= |source|
    ensures |r.location| == 1 + Nanoid.DefaultSize && r.location[0] == '/'
    ensures forall i :: 1 <= i < |r.location| ==> Nanoid.IsIdChar(r.location[i])
    ensures Get(r.store, r.location[1..]) ==
            Some(Paste(r.location[1..], FormGet(form, "title"), FormGet(form, "code")))
    ensures forall k :: k != r.location[1..] ==> Get(r.store, k) == Get(kv, k)
    ensures r.store.Keys == kv.Keys + {r.location[1..]}
    ensures r.location == "/" + Nanoid.Nanoid(Nanoid.DefaultSize, source).id
    ensures r.rest == source[Nanoid.DefaultSize..]
  {
    var draw := Nanoid.Nanoid(Nanoid.DefaultSize, source);
    var data := Paste(draw.id, FormGet(form, "title"), FormGet(form, "code"));
    var location := "/" + data.id;
    assert location[1..] == data.id;
    SaveResult(Put(kv, data.id, data), location, draw.rest)
  }

  /**
   `GET /:id`: not-found exactly when nothing is stored under `key`;
   otherwise the stored title and code, highlighted as `data.lang || 'js'`.
   */
  function Show(kv: Store, key: string): (r: Response)
    ensures r.NotFound? <==> key !in kv
    ensures r.Page? ==> r.title == kv[key].title && r.code == kv[key].code
    ensures r.Page? ==> r.language == DefaultLanguage
  {
    match Get(kv, key)
    case None => NotFound
    case Some(data) => Page(data.title, data.code, SelectLanguage(LangField(data)))
  }

  /**
   Round trip: fetching the identifier `/save` redirected to shows the
   submitted title and code, in the default language.
   */
  lemma SaveThenShow(kv: Store, form: Form, source: seq<Nanoid.Byte>)
    requires Nanoid.DefaultSize <= |source|
    ensures var r := Save(kv, form, source);
            Show(r.store, r.location[1..]) ==
            Page(FormGet(form, "title"), FormGet(form, "code"), DefaultLanguage)
  {
  }

  /** A save leaves every other identifier's response as it was. */
  lemma SaveKeepsOthers(kv: Store, form: Form, source: seq<Nanoid.Byte>, key: string)
    requires Nanoid.DefaultSize <= |source|
    requires key != Save(kv, form, source).location[1..]
    ensures Show(Save(kv, form, source).store, key) == Show(kv, key)
  {
  }

  /**
   No collision detection: two saves whose first `Nanoid.DefaultSize` random
   bytes agree modulo 64 redirect to the same identifier, and the second
   record silently replaces the first under that key.
   */
  lemma SaveCollisionOverwrites(kv: Store, form1: Form, source1: seq<Nanoid.Byte>,
                                form2: Form, source2: seq<Nanoid.Byte>)
    requires Nanoid.DefaultSize <= |source1| && Nanoid.DefaultSize <= |source2|
    requires Nanoid.Masks(source1[..Nanoid.DefaultSize]) == Nanoid.Masks(source2[..Nanoid.DefaultSize])
    ensures var first := Save(kv, form1, source1);
            var second := Save(first.store, form2, source2);
            && second.location == first.location
            && Show(second.store, first.location[1..]) ==
               Page(FormGet(form2, "title"), FormGet(form2, "code"), DefaultLanguage)
            && second.store.Keys == first.store.Keys
  {
    Nanoid.EncodeInjective(source1[..Nanoid.DefaultSize], source2[..Nanoid.DefaultSize]);
  }

  // ---------------------------------------------------------------------------
  // Histories of writes

  /** The store after a history of blind writes, applied in order to an empty namespace. */
  function Replay(writes: seq<Write>): (kv: Store)
    ensures kv.Keys == set i | 0 <= i < |writes| :: writes[i].key
  {
    if |writes| == 0 then map[]
    else
      var init := writes[..|writes| - 1];
      var last := writes[|writes| - 1];
      var all := set i | 0 <= i < |writes| :: writes[i].key;
      var earlier := set i | 0 <= i < |init| :: init[i].key;
      assert all == earlier + {last.key} by {
        forall k | k in all ensures k in earlier + {last.key} {
          var i :| 0 <= i < |writes| && writes[i].key == k;
          if i < |init| { assert init[i] == writes[i]; }
        }
        forall k | k in earlier ensures k in all {
          var i :| 0 <= i < |init| && init[i].key == k;
          assert writes[i] == init[i];
        }
      }
      Put(Replay(init), last.key, last.paste)
  }

  /**
   Reference reading of a history, scanning from the front: the record of
   the last write under `key`, or nothing when no write used `key`.
   */
  function LastWrite(writes: seq<Write>, key: string): (r: Option<Paste>)
    ensures r.None? <==> forall i :: 0 <= i < |writes| ==> writes[i].key != key
    ensures r.Some? ==>
              exists i :: 0 <= i < |writes| && writes[i] == Write(key, r.value) &&
                          forall j :: i < j < |writes| ==> writes[j].key != key
  {
    if |writes| == 0 then None
    else
      var later := LastWrite(writes[1..], key);
      if later.Some? then
        var i :| 0 <= i < |writes[1..]| && writes[1..][i] == Write(key, later.value) &&
                 forall j :: i < j < |writes[1..]| ==> writes[1..][j].key != key;
        assert writes[i + 1] == Write(key, later.value);
        assert forall j :: i + 1 < j < |writes| ==> writes[j].key != key by {
          forall j | i + 1 < j < |writes| ensures writes[j].key != key {
            assert writes[j] == writes[1..][j - 1];
          }
        }
        later
      else if writes[0].key == key then
        assert forall j :: 0 < j < |writes| ==> writes[j].key != key by {
          forall j | 0 < j < |writes| ensures writes[j].key != key {
            assert writes[j] == writes[1..][j - 1];
          }
        }
        Some(writes[0].paste)
      else
        assert forall i :: 0 <= i < |writes| ==> writes[i].key != key by {
          forall i | 0 <= i < |writes| ensures writes[i].key != key {
            if i > 0 { assert writes[i] == writes[1..][i - 1]; }
          }
        }
        None
  }

  /** The store after a history answers every lookup with the last write under that key. */
  lemma {:induction false} ReplayGet(writes: seq<Write>, key: string)
    ensures Get(Replay(writes), key) == LastWrite(writes, key)
  {
    if |writes| > 0 {
      var init := writes[..|writes| - 1];
      var w := writes[|writes| - 1];
      ReplayGet(init, key);
      if w.key == key {
        assert Get(Replay(writes), key) == Some(w.paste);
        assert LastWrite(writes, key) == Some(w.paste) by {
          LastWriteIsLast(writes, key);
        }
      } else {
        assert Get(Replay(writes), key) == Get(Replay(init), key);
        LastWriteIgnoresLater(init, w, key);
        assert init + [w] == writes;
      }
    }
  }

  /** When the final write uses `key`, it is the last write under `key`. */
  lemma LastWriteIsLast(writes: seq<Write>, key: string)
    requires 0 < |writes| && writes[|writes| - 1].key == key
    ensures LastWrite(writes, key) == Some(writes[|writes| - 1].paste)
  {
    var r := LastWrite(writes, key);
    assert r.Some?;
    var i :| 0 <= i < |writes| && writes[i] == Write(key, r.value) &&
             forall j :: i < j < |writes| ==> writes[j].key != key;
    assert writes[|writes| - 1].key == key;
  }

  /** A final write under another key does not change the last write under `key`. */
  lemma LastWriteIgnoresLater(init: seq<Write>, w: Write, key: string)
    requires w.key != key
    ensures LastWrite(init + [w], key) == LastWrite(init, key)
  {
    var writes := init + [w];
    assert forall i :: 0 <= i < |init| ==> writes[i] == init[i];
    var r := LastWrite(writes, key);
    var s := LastWrite(init, key);
    if r.Some? {
      var i :| 0 <= i < |writes| && writes[i] == Write(key, r.value) &&
               forall j :: i < j < |writes| ==> writes[j].key != key;
      assert s.Some?;
      var k :| 0 <= k < |init| && init[k] == Write(key, s.value) &&
               forall j :: k < j < |init| ==> init[j].key != key;
      assert i < |init| && writes[i] == init[i];
      assert writes[k] == init[k];
    }
  }

  /**
   Absence: after any history of writes into an empty namespace, a key no
   write used is answered with not-found, and a key some write used is not.
   */
  lemma NeverWrittenIsNotFound(writes: seq<Write>, key: string)
    ensures Show(Replay(writes), key) == NotFound <==>
            forall i :: 0 <= i < |writes| ==> writes[i].key != key
  {
    ReplayGet(writes, key);
  }
}
