/** The fixed action catalogue of the life-rhythm sequencer and the attribute
    effect each action has when the playhead triggers it. */
module Actions {

  /** Every action id that appears in the game's tables. The source identifies
      actions by their Chinese names; the constructor comments give them. */
  datatype Action =
    | Work      // 工作
    | Eat       // 吃饭
    | Read      // 阅读
    | Music     // 听歌
    | Drama     // 看剧
    | Gaming    // 玩游戏
    | Chat      // 聊天
    | Exercise  // 运动
    | Create    // 创作
    | Study     // 学习
    | Phone     // 刷手机
    | Toilet    // 上厕所
    | Stroll    // 闲逛
    | Stocks    // 炒股
    | Daydream  // 发呆
    | Sleep     // 睡觉
    | Coffee    // 冲咖啡: has an effect entry but is not in the catalogue

  /** The unlockable actions in declaration order; unlocks draw from this list. */
  const Catalog: seq<Action> :=
    [Work, Eat, Read, Music, Drama, Gaming, Chat, Exercise,
     Create, Study, Phone, Toilet, Stroll, Stocks, Daydream, Sleep]

  /** The roster a fresh or reset game starts with. */
  const Starters: seq<Action> := [Work, Eat, Phone]

  /** The three attributes an action can change. */
  datatype Stat = Money | Knowledge | Desire

  datatype Effect = Effect(stat: Stat, delta: int)

  /** The effect table: the signed change each action makes to each attribute. */
  function Effects(a: Action): (es: seq<Effect>)
    ensures es != [] && StatsDistinct(es)
    ensures forall i :: 0 <= i < |es| && es[i].stat == Money ==> a in {Work, Eat, Stocks} && es[i].delta >= -1
    ensures forall i :: 0 <= i < |es| && es[i].stat == Knowledge && es[i].delta < 0 ==> a == Toilet
  {
    match a
    case Work     => [Effect(Money, 2), Effect(Desire, 1)]
    case Eat      => [Effect(Money, -1), Effect(Desire, -1)]
    case Read     => [Effect(Knowledge, 2), Effect(Desire, -1)]
    case Music    => [Effect(Knowledge, 1), Effect(Desire, -1)]
    case Drama    => [Effect(Knowledge, 1), Effect(Desire, -1)]
    case Gaming   => [Effect(Knowledge, 1), Effect(Desire, 1)]
    case Chat     => [Effect(Knowledge, 1), Effect(Desire, 2)]
    case Exercise => [Effect(Knowledge, 1), Effect(Desire, -2)]
    case Create   => [Effect(Knowledge, 2), Effect(Desire, -1)]
    case Study    => [Effect(Knowledge, 5)]
    case Phone    => [Effect(Knowledge, 2), Effect(Desire, 1)]
    case Toilet   => [Effect(Knowledge, -1), Effect(Desire, -1)]
    case Stroll   => [Effect(Knowledge, 1)]
    case Coffee   => [Effect(Desire, -1)]
    case Stocks   => [Effect(Money, 0), Effect(Desire, 1)]
    case Daydream => [Effect(Desire, -1)]
    case Sleep    => [Effect(Desire, -2)]
  }

  /** No element occurs twice. */
  predicate Distinct<T(==)>(s: seq<T>)
  {
    forall i, j :: 0 <= i < j < |s| ==> s[i] != s[j]
  }

  /** Each attribute occurs at most once in an effect list (an object's keys). */
  predicate StatsDistinct(es: seq<Effect>)
  {
    forall i, j :: 0 <= i < j < |es| ==> es[i].stat != es[j].stat
  }

  /** The delta an effect list assigns to `st`; 0 when it does not mention it. */
  function DeltaOf(es: seq<Effect>, st: Stat): (d: int)
    ensures (forall i :: 0 <= i < |es| ==> es[i].stat != st) ==> d == 0
    ensures forall i :: 0 <= i < |es| && es[i].stat == st && StatsDistinct(es) ==> d == es[i].delta
  {
    if es == [] then 0
    else if es[0].stat == st then es[0].delta
    else DeltaOf(es[1..], st)
  }

  /** The position of an action in the catalogue, or -1 for one outside it. */
  function CatalogIndex(a: Action): int
  {
    match a
    case Work => 0
    case Eat => 1
    case Read => 2
    case Music => 3
    case Drama => 4
    case Gaming => 5
    case Chat => 6
    case Exercise => 7
    case Create => 8
    case Study => 9
    case Phone => 10
    case Toilet => 11
    case Stroll => 12
    case Stocks => 13
    case Daydream => 14
    case Sleep => 15
    case Coffee => -1
  }

  /** The catalogue lists sixteen different actions, every one but Coffee. */
  lemma CatalogShape()
    ensures |Catalog| == 16
    ensures Distinct(Catalog)
    ensures forall a :: a in Catalog <==> a != Coffee
  {
    forall i | 0 <= i < |Catalog|
      ensures CatalogIndex(Catalog[i]) == i
    {
    }
    forall a | a != Coffee
      ensures a in Catalog
    {
      assert Catalog[CatalogIndex(a)] == a;
    }
  }
}
