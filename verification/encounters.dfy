/** Encounters (`generateEncounters`, `generateEncounterDescription`): each
    room in turn has a 0.6 chance of an encounter with one to three creature
    entries drawn from the biome's vocabulary, a count per entry bounded by
    the difficulty, and a challenge rating drawn last. */
module Encounters {
  import opened Options
  import opened SeededRandom
  import opened Rooms

  datatype Difficulty = Easy | Medium | Hard | Deadly

  /** Twice the difficulty's challenge multiplier (0.5, 1.0, 1.5 or 2.0, all
      exact in binary), rounded down. */
  function DoubledMultiplier(d: Difficulty): (b: nat)
    ensures 1 <= b <= 4
  {
    match d
    case Easy => 1
    case Medium => 2
    case Hard => 3
    case Deadly => 4
  }

  /** The biomes with a creature list; any other biome name falls back to
      the dungeon list. */
  datatype Biome = Dungeon | Cave | Forest | Crypt | Temple | Tower | Other(name: string)

  /** The five creature names of a biome; a biome without its own list uses
      the dungeon list. */
  function Creatures(b: Biome): (names: seq<string>)
    ensures |names| == 5
  {
    match b
    case Dungeon => DungeonCreatures
    case Cave => ["Bat", "Bear", "Kobold", "Owlbear", "Bulette"]
    case Forest => ["Wolf", "Dryad", "Treant", "Dire Wolf", "Green Dragon"]
    case Crypt => ["Zombie", "Wraith", "Lich", "Mummy", "Vampire"]
    case Temple => ["Celestial", "Demon", "Angel", "Paladin", "Cleric"]
    case Tower => ["Mage", "Elemental", "Gargoyle", "Wizard", "Archmage"]
    case Other(_) => DungeonCreatures
  }

  const DungeonCreatures: seq<string> := ["Goblin", "Skeleton", "Orc", "Troll", "Dragon"]

  datatype CreatureEntry = CreatureEntry(name: string, count: int)

  datatype Encounter = Encounter(
    id: nat, roomId: nat, name: string, description: string,
    challengeRating: int, creatures: seq<CreatureEntry>)

  /** A drawn float is below 0.6 exactly when the drawn state is below
      0.6 * 233280 = 139968. */
  const EncounterThreshold: nat := 139968

  /** The largest count an entry may have: twice the multiplier, rounded
      down, and at least 1. */
  function MaxCount(d: Difficulty): nat {
    DoubledMultiplier(d)
  }

  /** The entries of one encounter: for each, a name chosen from the
      vocabulary, then a count from 1 to the difficulty's maximum. */
  function DrawCreatures(s: nat, names: seq<string>, d: Difficulty, n: nat): (r: Drawn<seq<CreatureEntry>>)
    requires |names| > 0
    ensures |r.value| == n
    ensures forall i | 0 <= i < n :: r.value[i].name in names && 1 <= r.value[i].count <= MaxCount(d)
    ensures r.rng == Advance(s, 2 * n)
    decreases n
  {
    if n == 0 then Drawn([], s)
    else
      var name := Choice(s, names);
      var count := NextInt(name.rng, 1, MaxCount(d));
      var rest := DrawCreatures(count.rng, names, d, n - 1);
      assert count.rng == Advance(s, 2) by {
        assert Advance(s, 1) == Next(s);
      }
      AdvanceAdd(s, 2, 2 * (n - 1));
      Drawn([CreatureEntry(name.value.value, count.value)] + rest.value, rest.rng)
  }

  /** The challenge rating for the drawn state t: three times the multiplier
      times the drawn float, rounded half up, and at least 1. That product is
      3bt / 466560 with b the doubled multiplier, and rounding half up is the
      floor of the product plus one half. */
  function ChallengeRating(d: Difficulty, t: nat): int {
    var b := DoubledMultiplier(d);
    var rounded := (3 * b * t + Modulus) / (2 * Modulus);
    if rounded < 1 then 1 else rounded
  }

  /** The rating lies between 1 and max(1, floor(1.5 * b)): the product is
      below 3b/2, so its rounding is at most floor(3b/2). */
  lemma ChallengeRatingBounds(d: Difficulty, t: nat)
    requires t < Modulus
    ensures 1 <= ChallengeRating(d, t) <= Max(1, 3 * DoubledMultiplier(d) / 2)
  {
    var b := DoubledMultiplier(d);
    var q := (3 * b * t + Modulus) / (2 * Modulus);
    assert 3 * b * t <= 3 * b * (Modulus - 1) by {
      MulMonotone(3 * b, t, Modulus - 1);
    }
    assert q * (2 * Modulus) <= 3 * b * t + Modulus;
    assert q * 2 * Modulus < (3 * b + 1) * Modulus;
    assert 2 * q < 3 * b + 1 by {
      if 2 * q >= 3 * b + 1 {
        MulMonotone(Modulus, 3 * b + 1, 2 * q);
      }
    }
  }

  /** ASCII upper case to lower case; the vocabularies are ASCII. */
  function LowerChar(c: char): char {
    if 'A' <= c <= 'Z' then (c as int - 'A' as int + 'a' as int) as char else c
  }

  predicate HasNoUpper(s: string) {
    forall i | 0 <= i < |s| :: !('A' <= s[i] <= 'Z')
  }

  /** `toLowerCase` on ASCII text: every capital becomes the letter 32 code
      points above it and every other character is kept, so no capital is
      left, and the text changes exactly when it had one. */
  function Lower(s: string): (r: string)
    ensures |r| == |s|
    ensures forall i | 0 <= i < |s| && 'A' <= s[i] <= 'Z' :: r[i] as int == s[i] as int + 32
    ensures forall i | 0 <= i < |s| && !('A' <= s[i] <= 'Z') :: r[i] == s[i]
    ensures HasNoUpper(r)
    ensures r == s <==> HasNoUpper(s)
  {
    var r := seq(|s|, i requires 0 <= i < |s| => LowerChar(s[i]));
    assert r == s ==> HasNoUpper(s) by {
      if r == s {
        forall i | 0 <= i < |s|
          ensures !('A' <= s[i] <= 'Z')
        {
          assert r[i] == s[i];
        }
      }
    }
    r
  }

  /** The creature names in lower case, separated by a comma and a space. */
  function JoinNames(cs: seq<CreatureEntry>): string
    decreases |cs|
  {
    if |cs| == 0 then ""
    else if |cs| == 1 then Lower(cs[0].name)
    else JoinNames(cs[..|cs| - 1]) + ", " + Lower(cs[|cs| - 1].name)
  }

  /** The joined names contain every lowered name, in order, separated by
      ", ": the joined text of the first k names is a prefix of the whole. */
  lemma {:induction false} JoinNamesPrefix(cs: seq<CreatureEntry>, k: nat)
    requires 1 <= k <= |cs|
    ensures JoinNames(cs[..k]) <= JoinNames(cs)
    ensures JoinNames(cs[..k]) == JoinNames(cs[..k - 1]) + (if k == 1 then "" else ", ") + Lower(cs[k - 1].name)
    decreases |cs|
  {
    assert cs[..k][..k - 1] == cs[..k - 1];
    if k < |cs| {
      var pre := cs[..|cs| - 1];
      assert pre[..k] == cs[..k];
      JoinNamesPrefix(pre, k);
    } else {
      assert cs[..k] == cs;
    }
  }

  /** The flavour text for each room type (`descriptions[roomType]`). */
  function BaseDescription(t: RoomType): string {
    match t
    case Chamber => "A dimly lit chamber where danger lurks in the shadows."
    case Hall => "The echoing hall stretches before you, inhabited by hostile forces."
    case Treasury => "Gold and gems glitter in this treasure room, but guardians protect the hoard."
    case Barracks => "Old bunks and weapons racks suggest this was once a military quarters."
    case Library => "Ancient tomes line the shelves of this forgotten library."
    case Armory => "Weapons and armor hang from the walls, some still serviceable."
    case Kitchen => "The smell of old food and decay fills this abandoned kitchen."
    case ThroneRoom => "A grand throne dominates this royal chamber."
    case Chapel => "Sacred symbols and altar suggest this was once a holy place."
    case Laboratory => "Bubbling potions and strange apparatus fill this research chamber."
  }

  const AreaTail: string := " this area."

  /** The sentence `generateEncounterDescription` builds around a base text. */
  function Sentence(base: string, cs: seq<CreatureEntry>): string {
    base + " " + Article(cs) + " " + JoinNames(cs) + " " + Verb(cs) + AreaTail
  }

  function Article(cs: seq<CreatureEntry>): string {
    if |cs| == 1 then "A" else "Several"
  }

  function Verb(cs: seq<CreatureEntry>): string {
    if |cs| == 1 then "guards" else "guard"
  }

  /** `generateEncounterDescription`. */
  function Description(t: RoomType, cs: seq<CreatureEntry>): string {
    Sentence(BaseDescription(t), cs)
  }

  /** Text opening with base, a space and a word w. */
  lemma OpensWith(base: string, w: string, rest: string)
    requires |w| >= 1
    ensures var d := base + " " + w + rest;
      && d[..|base|] == base && d[|base|] == ' '
      && d[|base| + 1..|base| + 1 + |w|] == w && d[|base| + 1] == w[0]
  {
    var head := base + " " + w;
    var d := head + rest;
    assert d[..|head|] == head;
    assert head[..|base|] == base;
    assert head[|base| + 1..] == w;
  }

  /** A description (`Sentence` of the room type's text) opens with that
      text, and the word after it is "A" for a single entry and "Several"
      otherwise. */
  lemma SentenceArticle(base: string, cs: seq<CreatureEntry>)
    ensures var d := Sentence(base, cs);
      && |d| > |base| + |Article(cs)| + 1
      && d[..|base|] == base && d[|base|] == ' '
      && d[|base| + 1..|base| + 1 + |Article(cs)|] == (if |cs| == 1 then "A" else "Several")
      && (d[|base| + 1] == 'A' <==> |cs| == 1)
  {
    var art := Article(cs);
    var rest := " " + JoinNames(cs) + " " + Verb(cs) + AreaTail;
    assert Sentence(base, cs) == base + " " + art + rest;
    OpensWith(base, art, rest);
    if |cs| != 1 {
      assert art[0] == 'S';
    }
  }

  /** A description always ends in " this area."; the word before it,
      after a space, is "guards" for a single entry and "guard" otherwise,
      so it ends in 's' exactly for a single entry. */
  lemma SentenceVerb(base: string, cs: seq<CreatureEntry>)
    ensures var d := Sentence(base, cs);
      && |d| > |AreaTail| + |Verb(cs)|
      && d[|d| - |AreaTail|..] == AreaTail
      && d[|d| - |AreaTail| - |Verb(cs)|..|d| - |AreaTail|] == (if |cs| == 1 then "guards" else "guard")
      && d[|d| - |AreaTail| - |Verb(cs)| - 1] == ' '
      && (d[|d| - |AreaTail| - 1] == 's' <==> |cs| == 1)
  {
    var verb := Verb(cs);
    var head := base + " " + Article(cs) + " " + JoinNames(cs) + " ";
    var d := Sentence(base, cs);
    assert d == (head + verb) + AreaTail;
    assert d[..|head| + |verb|] == head + verb;
    assert (head + verb)[|head|..] == verb;
    assert d[|head|..|head| + |verb|] == verb;
    assert d[|head| - 1] == head[|head| - 1] == ' ';
    assert d[|d| - |AreaTail| - 1] == verb[|verb| - 1];
  }

  /** An encounter before its texts: what one room's turn draws, and the
      room type its name and description are built from. */
  datatype Draft = Draft(id: nat, roomId: nat, kind: RoomType, challengeRating: int, creatures: seq<CreatureEntry>)

  /** The encounter object of a draft: named after the room type, with the
      description built from the room type and the entries. */
  function Render(x: Draft): Encounter {
    Encounter(x.id, x.roomId, TypeName(x.kind) + " Encounter",
              Description(x.kind, x.creatures), x.challengeRating, x.creatures)
  }

  /** What every draft for room `room` with index `id` satisfies: its id,
      room and room type, one to three entries with names from the biome's
      vocabulary and counts from 1 to the difficulty's maximum, and a rating
      from 1 to max(1, 1.5 * b). */
  predicate DraftFits(x: Draft, room: Room, id: nat, d: Difficulty, b: Biome) {
    && x.id == id
    && x.roomId == room.id
    && x.kind == room.kind
    && 1 <= |x.creatures| <= 3
    && (forall i | 0 <= i < |x.creatures| ::
          x.creatures[i].name in Creatures(b) && 1 <= x.creatures[i].count <= MaxCount(d))
    && 1 <= x.challengeRating <= Max(1, 3 * DoubledMultiplier(d) / 2)
  }

  /** One room's turn (the body of the loop in `generateEncounters`): the
      encounter draw, and on success the entry count, the entries, and the
      challenge-rating draw, in that order. The texts draw nothing and are
      attached by `Render`. */
  function RoomDraft(s: nat, room: Room, id: nat, d: Difficulty, b: Biome): (r: Drawn<Option<Draft>>)
    ensures r.value.None? <==> Next(s) >= EncounterThreshold
    ensures r.value.None? ==> r.rng == Next(s)
    ensures r.value.Some? ==> DraftFits(r.value.value, room, id, d, b)
  {
    var roll := Next(s);
    if roll >= EncounterThreshold then Drawn(None, roll)
    else
      var n := NextInt(roll, 1, 3);
      var entries := DrawCreatures(n.rng, Creatures(b), d, n.value);
      var t := Next(entries.rng);
      ChallengeRatingBounds(d, t);
      Drawn(Some(Draft(id, room.id, room.kind, ChallengeRating(d, t), entries.value)), t)
  }

  /** What every encounter for room `room` with index `id` satisfies: its
      id and room, its name and description from the room type, one to
      three entries with names from the biome's vocabulary and counts from 1
      to the difficulty's maximum, and a rating from 1 to max(1, 1.5 * b). */
  predicate Fits(e: Encounter, room: Room, id: nat, d: Difficulty, b: Biome) {
    && e.id == id
    && e.roomId == room.id
    && e.name == TypeName(room.kind) + " Encounter"
    && e.description == Description(room.kind, e.creatures)
    && 1 <= |e.creatures| <= 3
    && (forall i | 0 <= i < |e.creatures| ::
          e.creatures[i].name in Creatures(b) && 1 <= e.creatures[i].count <= MaxCount(d))
    && 1 <= e.challengeRating <= Max(1, 3 * DoubledMultiplier(d) / 2)
  }

  /** A fitting draft renders to a fitting encounter. */
  lemma RenderFits(x: Draft, room: Room, id: nat, d: Difficulty, b: Biome)
    requires DraftFits(x, room, id, d, b)
    ensures Fits(Render(x), room, id, d, b)
  {
  }

  /** The drafts of the first n rooms in order, each room possibly adding
      one whose id is the number of drafts so far. */
  function DraftsUpTo(s: nat, rooms: seq<Room>, n: nat, d: Difficulty, b: Biome): (r: Drawn<seq<Draft>>)
    requires n <= |rooms|
    ensures |r.value| <= n
  {
    if n == 0 then Drawn([], s)
    else
      var pre := DraftsUpTo(s, rooms, n - 1, d, b);
      var x := RoomDraft(pre.rng, rooms[n - 1], |pre.value|, d, b);
      Drawn(pre.value + (if x.value.Some? then [x.value.value] else []), x.rng)
  }

  /** One encounter per draft, in the same order. */
  function RenderAll(xs: seq<Draft>): (es: seq<Encounter>)
    ensures |es| == |xs|
  {
    seq(|xs|, k requires 0 <= k < |xs| => Render(xs[k]))
  }

  /** `generateEncounters`: every room's turn, in order. */
  function GenerateEncounters(s: nat, rooms: seq<Room>, d: Difficulty, b: Biome): (r: Drawn<seq<Encounter>>)
    ensures |r.value| <= |rooms|
  {
    var xs := DraftsUpTo(s, rooms, |rooms|, d, b);
    Drawn(RenderAll(xs.value), xs.rng)
  }

  /** The index of the room each of the first n rooms' drafts came from,
      built alongside `DraftsUpTo`. */
  ghost function Origins(s: nat, rooms: seq<Room>, n: nat, d: Difficulty, b: Biome): seq<nat>
    requires n <= |rooms|
  {
    if n == 0 then []
    else
      var pre := DraftsUpTo(s, rooms, n - 1, d, b);
      var x := RoomDraft(pre.rng, rooms[n - 1], |pre.value|, d, b);
      Origins(s, rooms, n - 1, d, b) + (if x.value.Some? then [n - 1] else [])
  }

  /** One more room extends the drafts, and their origins, by at most one:
      the room's own turn, drawn after all earlier rooms. */
  lemma DraftsStep(s: nat, rooms: seq<Room>, n: nat, d: Difficulty, b: Biome)
    requires 0 < n <= |rooms|
    ensures var pre := DraftsUpTo(s, rooms, n - 1, d, b);
      var x := RoomDraft(pre.rng, rooms[n - 1], |pre.value|, d, b);
      && DraftsUpTo(s, rooms, n, d, b).value == pre.value + (if x.value.Some? then [x.value.value] else [])
      && Origins(s, rooms, n, d, b) == Origins(s, rooms, n - 1, d, b) + (if x.value.Some? then [n - 1] else [])
  {
  }

  /** Appending one more room keeps the origin indices increasing. */
  lemma OriginsIncreaseStep(os: seq<nat>, n: nat, add: bool)
    requires forall k | 0 <= k < |os| :: os[k] < n
    requires forall k1, k2 | 0 <= k1 < k2 < |os| :: os[k1] < os[k2]
    ensures var os' := os + (if add then [n] else []);
      && (forall k | 0 <= k < |os'| :: os'[k] < n + 1)
      && (forall k1, k2 | 0 <= k1 < k2 < |os'| :: os'[k1] < os'[k2])
  {
  }

  /** One origin index per draft, each naming one of the first n rooms, in
      increasing order. */
  lemma {:induction false} OriginsShape(s: nat, rooms: seq<Room>, n: nat, d: Difficulty, b: Biome)
    requires n <= |rooms|
    ensures var os := Origins(s, rooms, n, d, b);
      && |os| == |DraftsUpTo(s, rooms, n, d, b).value|
      && (forall k | 0 <= k < |os| :: os[k] < n)
      && (forall k1, k2 | 0 <= k1 < k2 < |os| :: os[k1] < os[k2])
  {
    if n > 0 {
      var pre := DraftsUpTo(s, rooms, n - 1, d, b);
      OriginsShape(s, rooms, n - 1, d, b);
      var x := RoomDraft(pre.rng, rooms[n - 1], |pre.value|, d, b);
      DraftsStep(s, rooms, n, d, b);
      OriginsIncreaseStep(Origins(s, rooms, n - 1, d, b), n - 1, x.value.Some?);
    }
  }

  /** The k-th draft fits the room its origin index names, with id k. */
  lemma {:induction false} DraftFitsOrigin(s: nat, rooms: seq<Room>, n: nat, d: Difficulty, b: Biome, k: nat)
    requires n <= |rooms| && k < |DraftsUpTo(s, rooms, n, d, b).value|
    ensures var os := Origins(s, rooms, n, d, b);
      && k < |os| && os[k] < n
      && DraftFits(DraftsUpTo(s, rooms, n, d, b).value[k], rooms[os[k]], k, d, b)
  {
    OriginsShape(s, rooms, n, d, b);
    var pre := DraftsUpTo(s, rooms, n - 1, d, b);
    var x := RoomDraft(pre.rng, rooms[n - 1], |pre.value|, d, b);
    DraftsStep(s, rooms, n, d, b);
    var xs, os := DraftsUpTo(s, rooms, n, d, b).value, Origins(s, rooms, n, d, b);
    var os0 := Origins(s, rooms, n - 1, d, b);
    OriginsShape(s, rooms, n - 1, d, b);
    if k < |pre.value| {
      DraftFitsOrigin(s, rooms, n - 1, d, b, k);
      assert xs[k] == pre.value[k] && os[k] == os0[k];
    } else {
      assert k == |pre.value| && x.value.Some?;
      assert xs == pre.value + [x.value.value] && os == os0 + [n - 1];
      assert xs[k] == x.value.value && os[k] == n - 1;
    }
  }

  /** Each encounter of es fits the room its origin index names. */
  predicate FitOrigins(es: seq<Encounter>, os: seq<nat>, rooms: seq<Room>, d: Difficulty, b: Biome)
    requires |os| == |es|
  {
    forall k | 0 <= k < |es| :: os[k] < |rooms| && Fits(es[k], rooms[os[k]], k, d, b)
  }

  /** The facts `EncountersFitTheirRooms` states, for encounters es drawn
      from rooms with origin indices os. */
  predicate FitTheirRooms(es: seq<Encounter>, os: seq<nat>, rooms: seq<Room>, d: Difficulty, b: Biome) {
    && |os| == |es|
    && FitOrigins(es, os, rooms, d, b)
    && (forall k1, k2 | 0 <= k1 < k2 < |es| :: os[k1] < os[k2])
  }

  /** Each encounter fits the room it came from, with id equal to its
      position, and the rooms they came from are in increasing order. */
  lemma EncountersFitTheirRooms(s: nat, rooms: seq<Room>, d: Difficulty, b: Biome)
    ensures FitTheirRooms(GenerateEncounters(s, rooms, d, b).value, Origins(s, rooms, |rooms|, d, b), rooms, d, b)
  {
    OriginsShape(s, rooms, |rooms|, d, b);
    var xs := DraftsUpTo(s, rooms, |rooms|, d, b).value;
    var es, os := GenerateEncounters(s, rooms, d, b).value, Origins(s, rooms, |rooms|, d, b);
    forall k | 0 <= k < |es|
      ensures os[k] < |rooms| && Fits(es[k], rooms[os[k]], k, d, b)
    {
      DraftFitsOrigin(s, rooms, |rooms|, d, b, k);
      RenderFits(xs[k], rooms[os[k]], k, d, b);
    }
  }

  /** With room ids equal to their positions, encounter ids count up from
      0, each encounter fits the room its room id names, and the room ids
      strictly increase. */
  lemma EncountersByRoomId(s: nat, rooms: seq<Room>, d: Difficulty, b: Biome)
    requires IdsAreIndices(rooms)
    ensures var es := GenerateEncounters(s, rooms, d, b).value;
      && (forall k | 0 <= k < |es| ::
            es[k].id == k && es[k].roomId < |rooms| && Fits(es[k], rooms[es[k].roomId], k, d, b))
      && (forall k1, k2 | 0 <= k1 < k2 < |es| :: es[k1].roomId < es[k2].roomId)
  {
    EncountersFitTheirRooms(s, rooms, d, b);
    var es, os := GenerateEncounters(s, rooms, d, b).value, Origins(s, rooms, |rooms|, d, b);
    assert FitTheirRooms(es, os, rooms, d, b);
    forall k | 0 <= k < |es|
      ensures es[k].roomId == os[k] && Fits(es[k], rooms[es[k].roomId], k, d, b)
    {
      assert Fits(es[k], rooms[os[k]], k, d, b);
    }
  }
}
