/**
 * The two tables of urlshorten.py and the code that fills and reads them:
 * add_url with the retry loop of ShortUrlList.post, add_secret_url, get_url,
 * and the decisions of ShortUrlList.post. The SQL engine is replaced by an
 * auto-increment sequence of rows and a map of secret ids.
 */
module Store {
  import opened Wrappers
  import Codec
  import Validator

  /** A row of the shortenedurls table. */
  datatype ShortUrl = ShortUrl(id: nat, url: string)

  /** The two 400 answers of ShortUrlList.post. */
  datatype PostError = MissingUrl | InvalidUrl

  /** The path segment of the API (urlshorten.py:211-212) a public code must not spell. */
  const Reserved: string := "urls"

  /** The one id whose code is Reserved. */
  const ReservedId: nat := 358721

  lemma ReservedDigits()
    ensures Codec.IndexOf(Codec.Text, 'u') == Some(11)
    ensures Codec.IndexOf(Codec.Text, 'r') == Some(23)
    ensures Codec.IndexOf(Codec.Text, 'l') == Some(16)
    ensures Codec.IndexOf(Codec.Text, 's') == Some(1)
  {
    Codec.IndexOfText(11);
    Codec.IndexOfText(23);
    Codec.IndexOfText(16);
    Codec.IndexOfText(1);
  }

  lemma ReservedDecodes()
    ensures Codec.Canonical(Reserved)
    ensures Codec.Decode(Reserved) == Some(ReservedId)
  {
    ReservedDigits();
    Codec.TextDistinct();
    Codec.DecodeSingle('u');
    Codec.DecodeSnoc("u", 'r');
    assert "u" + ['r'] == "ur";
    Codec.DecodeSnoc("ur", 'l');
    assert "ur" + ['l'] == "url";
    Codec.DecodeSnoc("url", 's');
    assert "url" + ['s'] == Reserved;
    assert Codec.Pow(Codec.Base, 1) == 66;
    assert Codec.Pow(Codec.Base, 2) == 66 * 66;
    assert Codec.Pow(Codec.Base, 3) == 66 * 66 * 66;
  }

  /** Exactly one id is thrown away by add_url: the one that encodes to "urls". */
  lemma ReservedIdOnly(n: nat)
    ensures Codec.Encode(n) == Reserved <==> n == ReservedId
  {
    ReservedDecodes();
    Codec.EncodeDecode(Reserved);
    Codec.EncodeInjective(n, ReservedId);
  }

  /** '+' is not a digit, so a public code never looks like a secret one. */
  lemma PlusNotInAlphabet()
    ensures !Codec.InAlphabet('+')
  {
    assert '+' !in Codec.Text0 && '+' !in Codec.Text1 && '+' !in Codec.Text2;
    assert '+' !in Codec.Text3 && '+' !in Codec.Text4 && '+' !in Codec.Text5;
    Codec.InAlphabetIff('+');
  }

  /** The first row whose id is id, as `.first()` of the query by id finds it. */
  function Lookup(rows: seq<ShortUrl>, id: nat): (r: Option<string>)
    ensures r.None? ==> forall i | 0 <= i < |rows| :: rows[i].id != id
    ensures r.Some? ==> exists i | 0 <= i < |rows| :: rows[i] == ShortUrl(id, r.value)
  {
    if rows == [] then None
    else if rows[0].id == id then Some(rows[0].url)
    else
      Lookup(rows[1..], id)
  }

  predicate Increasing(rows: seq<ShortUrl>)
  {
    forall i, j | 0 <= i < j < |rows| :: rows[i].id < rows[j].id
  }

  /** With ids that only grow, looking an id up finds its row. */
  lemma LookupFinds(rows: seq<ShortUrl>, i: nat)
    requires Increasing(rows) && i < |rows|
    ensures Lookup(rows, rows[i].id) == Some(rows[i].url)
  {
    var r := Lookup(rows, rows[i].id);
    var j :| 0 <= j < |rows| && rows[j] == ShortUrl(rows[i].id, r.value);
    assert i == j;
  }

  // Secret ids.

  /** The random source: the n-th call of random.choice(_text) picks Text[draw(n)]. */
  type Draw = nat -> Codec.DigitIndex

  /** add_secret_url's tries counter after a turns of its loop; never above 11. */
  function TriesAfter(a: nat): (r: nat)
    ensures r <= 11
  {
    if a == 0 then 0
    else if TriesAfter(a - 1) > 10 then 1
    else TriesAfter(a - 1) + 1
  }

  /** add_secret_url's length variable after a turns of its loop. */
  function LengthAfter(a: nat): (r: nat)
    ensures r >= 5
  {
    if a == 0 then 5
    else if TriesAfter(a - 1) > 10 then LengthAfter(a - 1) + 1
    else LengthAfter(a - 1)
  }

  /** How many random choices the first k candidates used up. */
  function Offset(k: nat): (r: nat)
    ensures r >= 5 * k
  {
    if k == 0 then 0 else Offset(k - 1) + LengthAfter(k)
  }

  /** `'+'` followed by length symbols drawn from position start on. */
  function Secret(draw: Draw, start: nat, length: nat): (r: string)
    ensures |r| == length + 1 && r[0] == '+'
  {
    "+" + seq(length, i requires 0 <= i < length => Codec.Text[draw(start + i)])
  }

  /** The k-th candidate (k from 0), drawn in turn k + 1 with that turn's length. */
  function Candidate(draw: Draw, k: nat): (r: string)
    ensures |r| == LengthAfter(k + 1) + 1 && r[0] == '+'
  {
    Secret(draw, Offset(k), LengthAfter(k + 1))
  }

  /**
   * The escalation schedule of add_secret_url: in turn k + 1 the tries
   * counter is k mod 11 plus one and the length is 5 + k / 11, so the
   * length starts at 5 and grows by one after every 11 candidates.
   */
  lemma {:induction false} Schedule(k: nat)
    ensures TriesAfter(k + 1) == k % 11 + 1
    ensures LengthAfter(k + 1) == 5 + k / 11
  {
    if k > 0 {
      Schedule(k - 1);
      if (k - 1) % 11 == 10 {
        assert k % 11 == 0 && k / 11 == (k - 1) / 11 + 1;
      } else {
        assert k % 11 == (k - 1) % 11 + 1 && k / 11 == (k - 1) / 11;
      }
    }
  }

  /**
   * Every candidate is '+' and at least five symbols of the alphabet; the
   * first eleven have five, and each further eleven one more.
   */
  lemma CandidateShape(draw: Draw, k: nat)
    ensures Candidate(draw, k) != []
    ensures Candidate(draw, k)[0] == '+'
    ensures |Candidate(draw, k)| == 6 + k / 11 && |Candidate(draw, k)| >= 6
    ensures forall i | 1 <= i < |Candidate(draw, k)| :: Codec.InAlphabet(Candidate(draw, k)[i])
  {
    Schedule(k);
    var c := Candidate(draw, k);
    forall i | 1 <= i < |c| ensures Codec.InAlphabet(c[i]) {
      Codec.IndexOfText(draw(Offset(k) + i - 1));
    }
  }

  /** The length of the longest id in a set (0 for none). */
  ghost function MaxLen(keys: set<string>): (r: nat)
    decreases keys
  {
    if keys == {} then 0
    else
      var k :| k in keys;
      var m := MaxLen(keys - {k});
      if |k| > m then |k| else m
  }

  /** No id in the set is longer than MaxLen. */
  lemma {:induction false} MaxLenBound(keys: set<string>, id: string)
    requires id in keys
    ensures |id| <= MaxLen(keys)
    decreases keys
  {
    var k :| k in keys && MaxLen(keys) == (if |k| > MaxLen(keys - {k}) then |k| else MaxLen(keys - {k}));
    if id != k {
      MaxLenBound(keys - {k}, id);
    }
  }

  /** The id the public branch of ShortUrlList.post hands out when add_url would next use next. */
  function IssuedId(next: nat): (r: nat)
    ensures r != ReservedId && next <= r <= next + 1
  {
    if next == ReservedId then ReservedId + 1 else next
  }

  /** The rows that branch inserts: a discarded row under ReservedId first, if next is that id. */
  function InsertedRows(next: nat, url: string): (r: seq<ShortUrl>)
    ensures 1 <= |r| <= 2 && r[|r| - 1] == ShortUrl(IssuedId(next), url)
    ensures forall i | 0 <= i < |r| :: r[i].url == url
  {
    (if next == ReservedId then [ShortUrl(ReservedId, url)] else []) + [ShortUrl(IssuedId(next), url)]
  }

  /** The inserts of one or two add_url calls add up to InsertedRows; the last row carries the issued id. */
  lemma InsertedRowsSteps(rows: seq<ShortUrl>, next: nat, url: string)
    ensures next != ReservedId ==> rows + [ShortUrl(next, url)] == rows + InsertedRows(next, url)
    ensures (rows + [ShortUrl(ReservedId, url)]) + [ShortUrl(ReservedId + 1, url)] == rows + InsertedRows(ReservedId, url)
    ensures var r := rows + InsertedRows(next, url); r[|r| - 1] == ShortUrl(IssuedId(next), url)
  {
    assert [] + [ShortUrl(next, url)] == [ShortUrl(next, url)];
  }

  /** Positive ids, increasing in insertion order, all below the next one handed out. */
  ghost predicate RowsValid(rows: seq<ShortUrl>, nextId: nat)
  {
    && nextId > 0
    && (forall i | 0 <= i < |rows| :: 0 < rows[i].id < nextId)
    && Increasing(rows)
  }

  /**
   * Inserting a row under the next id keeps the rows valid, and that id was
   * not in use: the auto-increment key is fresh.
   */
  lemma RowsAppend(rows: seq<ShortUrl>, nextId: nat, url: string)
    requires RowsValid(rows, nextId)
    ensures RowsValid(rows + [ShortUrl(nextId, url)], nextId + 1)
    ensures forall i | 0 <= i < |rows| :: rows[i].id != nextId
  {
    var rows' := rows + [ShortUrl(nextId, url)];
    assert forall i | 0 <= i < |rows| :: rows'[i] == rows[i];
  }

  /** Every secret id is '+' followed by something. */
  ghost predicate SecretIds(ids: set<string>)
  {
    forall k | k in ids :: |k| > 0 && k[0] == '+'
  }

  /** Storing under a '+' id keeps every secret id starting with '+'. */
  lemma SecretIdsInsert(secrets: map<string, string>, id: string, url: string)
    requires SecretIds(secrets.Keys) && |id| > 0 && id[0] == '+'
    ensures SecretIds(secrets[id := url].Keys)
  {
    assert secrets[id := url].Keys == secrets.Keys + {id};
  }

  /** The database session: both tables. */
  class Database {
    /** shortenedurls, in insertion order. */
    var urls: seq<ShortUrl>
    /** The id the next insert into shortenedurls receives. */
    var nextId: nat
    /** secreturls, from id to long URL. */
    var secrets: map<string, string>

    ghost predicate Valid()
      reads this
    {
      RowsValid(urls, nextId) && SecretIds(secrets.Keys)
    }

    constructor ()
      ensures Valid() && urls == [] && nextId == 1 && secrets == map[]
    {
      urls, nextId, secrets := [], 1, map[];
    }

    /**
     * get_url: a leading '+' selects the secret table; anything else is
     * decoded as a public code. None where the source ends up answering 404.
     */
    function GetUrl(code: string): (r: Option<string>)
      reads this
      ensures |code| > 0 && code[0] == '+' ==> r == if code in secrets then Some(secrets[code]) else None
      ensures !(|code| > 0 && code[0] == '+') ==>
        (r.Some? <==> Codec.Decode(code).Some? && exists i | 0 <= i < |urls| :: urls[i].id == Codec.Decode(code).value)
      ensures !(|code| > 0 && code[0] == '+') && r.Some? ==>
        exists i | 0 <= i < |urls| :: urls[i] == ShortUrl(Codec.Decode(code).value, r.value)
    {
      if |code| > 0 && code[0] == '+' then
        if code in secrets then Some(secrets[code]) else None
      else
        match Codec.Decode(code)
        case None => None
        case Some(id) => Lookup(urls, id)
    }

    /**
     * add_url: insert a row under a fresh id and return the id, or -1 if
     * the id's code is "urls"; the row is kept in both cases.
     */
    method AddUrl(url: string) returns (urlid: int)
      requires Valid()
      modifies this
      ensures Valid()
      ensures urls == old(urls) + [ShortUrl(old(nextId), url)]
      ensures forall i | 0 <= i < |old(urls)| :: old(urls)[i].id != old(nextId)
      ensures nextId == old(nextId) + 1 && secrets == old(secrets)
      ensures urlid == -1 <==> Codec.Encode(old(nextId)) == Reserved
      ensures urlid == -1 <==> old(nextId) == ReservedId
      ensures urlid != -1 ==> urlid == old(nextId)
    {
      var id := nextId;
      RowsAppend(urls, id, url);
      urls := urls + [ShortUrl(id, url)];
      nextId := nextId + 1;
      var text := Codec.NumberToText(id);
      ReservedIdOnly(id);
      assert text == Reserved <==> id == ReservedId;
      if text == Reserved {
        urlid := -1;
      } else {
        urlid := id;
      }
    }

    /**
     * The public branch of ShortUrlList.post: call add_url until it gives
     * an id, then encode it. Only the one id whose code is "urls" is thrown
     * away, so the loop inserts one row, or two when it starts on that id.
     */
    method ShortenPublic(url: string) returns (urlid: nat, code: string)
      requires Valid()
      modifies this
      ensures Valid() && secrets == old(secrets)
      ensures urlid == IssuedId(old(nextId)) && nextId == urlid + 1
      ensures urls == old(urls) + InsertedRows(old(nextId), url)
      ensures code == Codec.Encode(urlid) && code != Reserved
      ensures GetUrl(code) == Some(url)
    {
      var id := -1;
      while id == -1
        invariant Valid() && secrets == old(secrets)
        invariant id == -1 ==>
          || (urls == old(urls) && nextId == old(nextId))
          || (old(nextId) == ReservedId && urls == old(urls) + [ShortUrl(ReservedId, url)] && nextId == ReservedId + 1)
        invariant id != -1 ==>
          id == IssuedId(old(nextId)) && nextId == id + 1 && urls == old(urls) + InsertedRows(old(nextId), url)
        decreases old(nextId) + 2 - nextId
      {
        InsertedRowsSteps(old(urls), old(nextId), url);
        id := AddUrl(url);
      }
      urlid := id;
      code := Codec.NumberToText(urlid);
      ReservedIdOnly(urlid);
      ResolvePublic(this, |urls| - 1);
    }

    /**
     * add_secret_url: find an id nobody holds yet and store the URL under it.
     */
    method AddSecretUrl(url: string, draw: Draw) returns (urlid: string, ghost attempts: nat)
      requires Valid()
      modifies this
      ensures Valid() && urls == old(urls) && nextId == old(nextId)
      ensures urlid !in old(secrets)
      ensures secrets == old(secrets)[urlid := url]
      ensures attempts > 0 && urlid == Candidate(draw, attempts - 1)
      ensures forall k | 0 <= k < attempts - 1 :: Candidate(draw, k) in old(secrets)
      ensures GetUrl(urlid) == Some(url)
    {
      urlid, attempts := FreshSecret(secrets.Keys, draw);
      SecretIdsInsert(secrets, urlid, url);
      secrets := secrets[urlid := url];
    }

    /**
     * ShortUrlList.post after its rate limit: reject an empty or invalid
     * url, otherwise store it under a secret id or a public code and
     * answer with that id or code.
     */
    method Post(url: string, secret: bool, draw: Draw) returns (r: Result<string, PostError>)
      requires Valid()
      modifies this
      ensures Valid()
      ensures url == [] ==> r == Failure(MissingUrl)
      ensures url != [] && !Validator.ValidUrl(url) ==> r == Failure(InvalidUrl)
      ensures r.Failure? ==> urls == old(urls) && nextId == old(nextId) && secrets == old(secrets)
      ensures r.Success? <==> url != [] && Validator.ValidUrl(url)
      ensures r.Success? ==> GetUrl(r.value) == Some(url)
      ensures r.Success? && secret ==>
        && |r.value| >= 6 && r.value[0] == '+' && r.value !in old(secrets)
        && secrets == old(secrets)[r.value := url] && urls == old(urls) && nextId == old(nextId)
      ensures r.Success? && !secret ==>
        && r.value == Codec.Encode(IssuedId(old(nextId))) && r.value != Reserved
        && urls == old(urls) + InsertedRows(old(nextId), url) && secrets == old(secrets)
        && nextId == IssuedId(old(nextId)) + 1
    {
      if url == [] {
        return Failure(MissingUrl);
      }
      if !Validator.ValidUrl(url) {
        return Failure(InvalidUrl);
      }
      if secret {
        ghost var attempts;
        var urlid;
        urlid, attempts := AddSecretUrl(url, draw);
        CandidateShape(draw, attempts - 1);
        return Success(urlid);
      }
      var urlid, code := ShortenPublic(url);
      return Success(code);
    }
  }

  /**
   * The loop of add_secret_url: draw candidates '+' + length random symbols
   * until one is neither empty nor taken, growing length by one whenever
   * more than 10 tries were spent on it. The table does not change while
   * the loop runs, so it is given as the set of ids taken.
   */
  method FreshSecret(taken: set<string>, draw: Draw) returns (urlid: string, ghost attempts: nat)
    ensures urlid !in taken && urlid != []
    ensures attempts > 0 && urlid == Candidate(draw, attempts - 1)
    ensures forall k | 0 <= k < attempts - 1 :: Candidate(draw, k) in taken
  {
    urlid := "";
    var tries := 0;
    var length := 5;
    var drawn := 0;
    attempts := 0;
    ghost var bound := MaxLen(taken) + 6;
    while urlid in taken || urlid == ""
      invariant tries == TriesAfter(attempts) && length == LengthAfter(attempts) && drawn == Offset(attempts)
      invariant length < bound
      invariant attempts == 0 ==> urlid == ""
      invariant attempts > 0 ==> urlid == Candidate(draw, attempts - 1)
      invariant forall k | 0 <= k < attempts - 1 :: Candidate(draw, k) in taken
      decreases 12 * (bound - length) + (11 - tries)
    {
      if attempts > 0 {
        MaxLenBound(taken, urlid);
      }
      if tries > 10 {
        length := length + 1;
        tries := 0;
      }
      urlid := Secret(draw, drawn, length);
      drawn := drawn + length;
      tries := tries + 1;
      attempts := attempts + 1;
    }
  }

  /** A stored public row is found again under its code. */
  lemma ResolvePublic(db: Database, i: nat)
    requires db.Valid() && i < |db.urls|
    ensures db.GetUrl(Codec.Encode(db.urls[i].id)) == Some(db.urls[i].url)
  {
    var id := db.urls[i].id;
    Codec.EncodeShape(id);
    PlusNotInAlphabet();
    Codec.DecodeEncode(id);
    LookupFinds(db.urls, i);
  }

  /** A public code that does not decode, or decodes to no stored id, resolves to nothing. */
  lemma ResolveMissing(db: Database, code: string)
    requires !(|code| > 0 && code[0] == '+')
    requires Codec.Decode(code).None? || forall i | 0 <= i < |db.urls| :: db.urls[i].id != Codec.Decode(code).value
    ensures db.GetUrl(code) == None
  {
  }

  /** The empty code decodes to 0, which no row uses: it resolves to nothing. */
  lemma ResolveEmpty(db: Database)
    requires db.Valid()
    ensures db.GetUrl("") == None
  {
    Codec.DecodeEmpty();
    ResolveMissing(db, "");
  }
}
