/** Names of the counters in the store, and exactly when two owners share one. */
module Keys {
  import opened Text
  import opened Redis

  /** Textual tenant identifiers: 36 characters, no colon. */
  type Uuid = u: string | |u| == 36 && ':' !in u witness seq(36, i => '0')

  datatype TenantRouteKey = TenantRouteKey(tenant: Uuid, route: string, subject: string)

  /** The digest (16 hexadecimal characters of a SHA-256 sum) and the case
      folding of the standard library. */
  datatype Hashing = Hashing(digest: string -> string, lower: string -> string) {
    /** Digests have a fixed width.  They may well collide. */
    ghost predicate Sound() {
      forall s :: |digest(s)| == 16
    }
  }

  predicate Collides(h: Hashing, s: string, t: string) {
    s != t && h.digest(s) == h.digest(t)
  }

  /** The text of a route that is hashed. */
  function Folded(h: Hashing, route: string): (folded: string) {
    h.lower(TrimSpace(route))
  }

  function RouteHash(h: Hashing, route: string): (hash: string) {
    h.digest(Folded(h, route))
  }

  function SubjectSegment(h: Hashing, subject: string): (segment: string) {
    if TrimSpace(subject) == "" then "" else ":" + h.digest(TrimSpace(subject))
  }

  /** What both key formats share after their algorithm tag. */
  function Base(h: Hashing, key: TenantRouteKey): (base: string) {
    key.tenant + ":" + RouteHash(h, key.route) + SubjectSegment(h, key.subject)
  }

  function BucketName(base: string): (name: string) {
    "rl:tb:" + base
  }

  function WindowName(base: string, role: string): (name: string) {
    "rl:sw:" + base + role
  }

  function TokenBucketKey(h: Hashing, key: TenantRouteKey): (name: string) {
    BucketName(Base(h, key))
  }

  function SlidingWindowKeys(h: Hashing, key: TenantRouteKey): (names: WindowKeys) {
    var base := Base(h, key);
    WindowKeys(WindowName(base, ":curr"), WindowName(base, ":prev"), WindowName(base, ":idx"))
  }

  function WindowNames(h: Hashing, key: TenantRouteKey): (names: set<string>) {
    var ks := SlidingWindowKeys(h, key);
    {ks.curr, ks.prev, ks.idx}
  }

  /** Same tenant, same route up to case and surrounding blanks, same subject
      up to surrounding blanks (a blank subject is no subject). */
  predicate SameOwner(h: Hashing, a: TenantRouteKey, b: TenantRouteKey) {
    && a.tenant == b.tenant
    && Folded(h, a.route) == Folded(h, b.route)
    && TrimSpace(a.subject) == TrimSpace(b.subject)
  }

  /** What the key formats preserve of an owner. */
  predicate SharesCounter(h: Hashing, a: TenantRouteKey, b: TenantRouteKey) {
    && a.tenant == b.tenant
    && RouteHash(h, a.route) == RouteHash(h, b.route)
    && SubjectSegment(h, a.subject) == SubjectSegment(h, b.subject)
  }

  /** Two owners share a counter exactly when their tenant is the same and each
      text that differs collides; a subject never collides with its absence, and
      tenants never share, whatever the digest does. */
  lemma {:induction false} SharingIsCollision(h: Hashing, a: TenantRouteKey, b: TenantRouteKey)
    requires h.Sound()
    ensures SharesCounter(h, a, b) <==>
              && a.tenant == b.tenant
              && (Folded(h, a.route) != Folded(h, b.route) ==> Collides(h, Folded(h, a.route), Folded(h, b.route)))
              && (TrimSpace(a.subject) != TrimSpace(b.subject) ==>
                    && TrimSpace(a.subject) != "" && TrimSpace(b.subject) != ""
                    && Collides(h, TrimSpace(a.subject), TrimSpace(b.subject)))
  {
    hide TrimSpace, Folded;
    var s, t := SubjectSegment(h, a.subject), SubjectSegment(h, b.subject);
    if TrimSpace(a.subject) != "" && TrimSpace(b.subject) != "" {
      assert s[1..] == h.digest(TrimSpace(a.subject)) && t[1..] == h.digest(TrimSpace(b.subject));
    }
  }

  /** No two different hashed texts of these keys have the same digest. */
  ghost predicate CollisionFree(h: Hashing, keys: set<TenantRouteKey>) {
    forall a, b :: a in keys && b in keys ==>
      !Collides(h, Folded(h, a.route), Folded(h, b.route)) && !Collides(h, TrimSpace(a.subject), TrimSpace(b.subject))
  }

  /** Among keys whose texts do not collide, sharing a counter is having the
      same owner. */
  lemma {:induction false} OwnersKeepApart(h: Hashing, keys: set<TenantRouteKey>, a: TenantRouteKey, b: TenantRouteKey)
    requires h.Sound() && CollisionFree(h, keys) && a in keys && b in keys
    ensures SharesCounter(h, a, b) <==> SameOwner(h, a, b)
  {
    hide TrimSpace, Folded, SharesCounter;
    SharingIsCollision(h, a, b);
  }

  // ---- digests that tell given texts apart exist

  function Pow16(w: nat): (power: nat)
    ensures 1 <= power
  {
    if w == 0 then 1 else 16 * Pow16(w - 1)
  }

  function Hex(i: nat, w: nat): (text: string)
    ensures |text| == w
  {
    if w == 0 then "" else Hex(i / 16, w - 1) + ["0123456789abcdef"[i % 16]]
  }

  lemma {:induction false} SameDigit(d: nat, e: nat)
    requires d < 16 && e < 16
    ensures "0123456789abcdef"[d] == "0123456789abcdef"[e] ==> d == e
  {
  }

  lemma {:induction false} HexTellsApart(i: nat, j: nat, w: nat)
    requires i < Pow16(w) && j < Pow16(w) && Hex(i, w) == Hex(j, w)
    ensures i == j
  {
    if w > 0 {
      assert Hex(i, w)[..w - 1] == Hex(i / 16, w - 1) && Hex(j, w)[..w - 1] == Hex(j / 16, w - 1);
      HexTellsApart(i / 16, j / 16, w - 1);
      SameDigit(i % 16, j % 16);
    }
  }

  /** Where a text first stands in a list, 0 if nowhere. */
  function Place(texts: seq<string>, s: string): (i: nat)
    ensures s in texts ==> i < |texts| && texts[i] == s
    ensures s !in texts ==> i == 0
  {
    if texts == [] then 0
    else
      var n := |texts| - 1;
      if s in texts[..n] then Place(texts[..n], s) else if texts[n] == s then n else 0
  }

  /** The numbered digest: sixteen hexadecimal digits of a text's place. */
  function Numbered(texts: seq<string>): (h: Hashing) {
    Hashing(s => Hex(Place(texts, s), 16), s => s)
  }

  /** Sixteen hexadecimal digits can keep any 16^16 texts apart. */
  lemma {:induction false} SoundHashingExists(texts: seq<string>)
    requires |texts| <= Pow16(16)
    ensures Numbered(texts).Sound()
    ensures forall s, t :: s in texts && t in texts ==> !Collides(Numbered(texts), s, t)
  {
    hide Hex, Pow16, Place;
    forall s, t | s in texts && t in texts && s != t ensures Numbered(texts).digest(s) != Numbered(texts).digest(t) {
      assert texts[Place(texts, s)] == s && texts[Place(texts, t)] == t;
      if Hex(Place(texts, s), 16) == Hex(Place(texts, t), 16) {
        HexTellsApart(Place(texts, s), Place(texts, t), 16);
      }
    }
  }

  // ---- the names

  /** The texts of all four keys. */
  lemma {:induction false} KeyTexts(h: Hashing, key: TenantRouteKey)
    ensures var route := h.digest(h.lower(TrimSpace(key.route)));
            var subject := if TrimSpace(key.subject) == "" then "" else ":" + h.digest(TrimSpace(key.subject));
            var base := key.tenant + ":" + route + subject;
            && TokenBucketKey(h, key) == "rl:tb:" + base
            && SlidingWindowKeys(h, key)
               == WindowKeys("rl:sw:" + base + ":curr", "rl:sw:" + base + ":prev", "rl:sw:" + base + ":idx")
  {
  }

  /** Routes that differ only in case or surrounding blanks, and subjects that
      differ only in surrounding blanks, use the same keys. */
  lemma {:induction false} CaseAndBlanksShare(
    h: Hashing, tenant: Uuid, route: string, route': string, subject: string,
    left: string, right: string, left': string, right': string)
    requires AllIn(left, SPACES) && AllIn(right, SPACES) && AllIn(left', SPACES) && AllIn(right', SPACES)
    requires Unblanked(route) && Unblanked(route') && Unblanked(subject) && h.lower(route) == h.lower(route')
    ensures var plain := TenantRouteKey(tenant, route, subject);
            var dressed := TenantRouteKey(tenant, left + route' + right, left' + subject + right');
            TokenBucketKey(h, plain) == TokenBucketKey(h, dressed)
            && SlidingWindowKeys(h, plain) == SlidingWindowKeys(h, dressed)
  {
    hide Trim;
    TrimAround(left, route', right, SPACES);
    TrimAround(left', subject, right', SPACES);
    assert "" + route + "" == route && "" + subject + "" == subject;
    TrimAround("", route, "", SPACES);
    TrimAround("", subject, "", SPACES);
  }

  /** Neither starts nor ends with a blank. */
  predicate Unblanked(s: string) {
    s != "" ==> s[0] !in SPACES && s[|s| - 1] !in SPACES
  }

  lemma {:induction false} SubjectSegmentWidth(h: Hashing, subject: string)
    requires h.Sound()
    ensures |SubjectSegment(h, subject)| == if TrimSpace(subject) == "" then 0 else 17
  {
    hide TrimSpace;
  }

  /** The parts of a base name can be read back from their positions. */
  lemma {:induction false} BaseParts(h: Hashing, key: TenantRouteKey)
    requires h.Sound()
    ensures var base := Base(h, key);
            && |base| in {53, 70}
            && base[..36] == key.tenant
            && base[37..53] == RouteHash(h, key.route)
            && base[53..] == SubjectSegment(h, key.subject)
            && base[36] == ':'
  {
    hide RouteHash, TrimSpace;
    SubjectSegmentWidth(h, key.subject);
    RouteHashWidth(h, key.route);
  }

  lemma {:induction false} RouteHashWidth(h: Hashing, route: string)
    requires h.Sound()
    ensures |RouteHash(h, route)| == 16
  {
  }

  /** Base names coincide exactly for owners that share. */
  lemma {:induction false} BaseIdentifies(h: Hashing, a: TenantRouteKey, b: TenantRouteKey)
    requires h.Sound()
    ensures Base(h, a) == Base(h, b) <==> SharesCounter(h, a, b)
  {
    hide Base, TrimSpace, SubjectSegment, RouteHash;
    BaseParts(h, a);
    BaseParts(h, b);
    if SharesCounter(h, a, b) {
      SameParts(Base(h, a), Base(h, b));
    }
  }

  /** A base name is its parts with a colon between. */
  lemma {:induction false} SameParts(x: string, y: string)
    requires |x| >= 53 && |y| >= 53
    requires x[..36] == y[..36] && x[36] == y[36] && x[37..53] == y[37..53] && x[53..] == y[53..]
    ensures x == y
  {
    assert x == x[..36] + [x[36]] + x[37..53] + x[53..];
    assert y == y[..36] + [y[36]] + y[37..53] + y[53..];
  }

  /** ISOLATION OF NAMES: two keys of the same algorithm name the same entries
      exactly when tenant and digests agree, and otherwise share none; entries
      of different algorithms never coincide. */
  lemma {:induction false} NamesIdentify(h: Hashing, a: TenantRouteKey, b: TenantRouteKey)
    requires h.Sound()
    ensures SlidingWindowKeys(h, a).Distinct()
    ensures TokenBucketKey(h, a) == TokenBucketKey(h, b) <==> SharesCounter(h, a, b)
    ensures SlidingWindowKeys(h, a) == SlidingWindowKeys(h, b) <==> SharesCounter(h, a, b)
    ensures WindowNames(h, a) !! WindowNames(h, b) <==> !SharesCounter(h, a, b)
    ensures TokenBucketKey(h, a) !in WindowNames(h, b)
  {
    hide SharesCounter, Base, WindowName, BucketName, Hashing.Sound;
    var x, y := Base(h, a), Base(h, b);
    BaseParts(h, a);
    BaseParts(h, b);
    BaseIdentifies(h, a, b);
    NamesApart(x, y);
    Triples(WindowName(x, ":curr"), WindowName(x, ":prev"), WindowName(x, ":idx"),
            WindowName(y, ":curr"), WindowName(y, ":prev"), WindowName(y, ":idx"));
  }

  lemma {:induction false} Triples(a: string, b: string, c: string, d: string, e: string, f: string)
    requires a != e && a != f && b != d && b != f && c != d && c != e
    ensures {a, b, c} !! {d, e, f} <==> a != d && b != e && c != f
  {
    if a == d {
      assert a in {a, b, c} && a in {d, e, f};
    }
    if b == e {
      assert b in {a, b, c} && b in {d, e, f};
    }
    if c == f {
      assert c in {a, b, c} && c in {d, e, f};
    }
  }

  /** Names are told apart by their algorithm tag, their base and their role. */
  lemma {:induction false} NamesApart(x: string, y: string)
    requires |x| in {53, 70} && |y| in {53, 70}
    ensures WindowName(x, ":curr") == WindowName(y, ":curr") <==> x == y
    ensures WindowName(x, ":prev") == WindowName(y, ":prev") <==> x == y
    ensures WindowName(x, ":idx") == WindowName(y, ":idx") <==> x == y
    ensures WindowName(x, ":curr") != WindowName(y, ":prev") && WindowName(x, ":prev") != WindowName(y, ":curr")
    ensures WindowName(x, ":curr") != WindowName(y, ":idx") && WindowName(x, ":idx") != WindowName(y, ":curr")
    ensures WindowName(x, ":prev") != WindowName(y, ":idx") && WindowName(x, ":idx") != WindowName(y, ":prev")
    ensures WindowName(x, ":curr") != WindowName(x, ":prev")
    ensures WindowName(x, ":prev") != WindowName(x, ":idx") && WindowName(x, ":idx") != WindowName(x, ":curr")
    ensures BucketName(x) == BucketName(y) <==> x == y
    ensures BucketName(x) !in {WindowName(y, ":curr"), WindowName(y, ":prev"), WindowName(y, ":idx")}
  {
    hide WindowName, BucketName;
    SameRole(x, y, ":curr");
    SameRole(x, y, ":prev");
    SameRole(x, y, ":idx");
    OtherRole(x, y, ":curr", ":prev");
    OtherRole(y, x, ":curr", ":prev");
    OtherRole(x, x, ":curr", ":prev");
    Widths(x);
    Widths(y);
    TagsDiffer(x, y, ":curr");
    TagsDiffer(x, y, ":prev");
    TagsDiffer(x, y, ":idx");
  }

  lemma {:induction false} Widths(x: string)
    ensures |WindowName(x, ":curr")| == |WindowName(x, ":prev")| == |x| + 11
    ensures |WindowName(x, ":idx")| == |x| + 10
  {
  }

  lemma {:induction false} OtherRole(x: string, y: string, s: string, t: string)
    requires |s| == |t| == 5 && s[4] != t[4]
    ensures WindowName(x, s) != WindowName(y, t)
  {
    assert WindowName(x, s)[|x| + 10] == s[4];
    assert WindowName(y, t)[|y| + 10] == t[4];
  }

  lemma {:induction false} SameRole(x: string, y: string, s: string)
    ensures WindowName(x, s) == WindowName(y, s) <==> x == y
  {
    assert WindowName(x, s)[6..6 + |x|] == x;
    assert WindowName(y, s)[6..6 + |y|] == y;
  }

  lemma {:induction false} TagsDiffer(x: string, y: string, s: string)
    ensures BucketName(x) != WindowName(y, s)
    ensures BucketName(x) == BucketName(y) <==> x == y
  {
    assert BucketName(x)[3] == 't' && WindowName(y, s)[3] == 's';
    assert BucketName(x)[6..] == x && BucketName(y)[6..] == y;
  }
}
