/** The dashboard's project-progress card. */
module Dashboard {

  /** The progress table shipped with the application, in percent. */
  const ProjectProgress: map<string, int> := map[
    "내부통제 시스템 고도화" := 75,
    "차세대 AI 엔진 개발" := 40,
    "데이터 파이프라인 구축" := 90]

  /** The card: the percentage shown on the bar and its label, and the title. */
  datatype Card = Card(percent: int, title: string)

  /** `projectProgressData[name] || 0`: a missing entry reads as `undefined`,
      and `undefined`, like `0`, is falsy, so both give 0. The result is the
      table's entry for `name`, or 0 when there is none. */
  function Progress(data: map<string, int>, name: string): (r: int)
    ensures name in data ==> r == data[name]
    ensures name !in data ==> r == 0
  {
    var looked := if name in data then data[name] else 0;
    if looked != 0 then looked else 0
  }

  /** `updateProjectProgress`: the card for the selected project shows its
      entry in the shipped table, or 0 for a project without one, so always a
      percentage from 0 to 100; the title names the project. */
  function ProgressCard(name: string): (c: Card)
    ensures name in ProjectProgress ==> c.percent == ProjectProgress[name]
    ensures name !in ProjectProgress ==> c.percent == 0
    ensures 0 <= c.percent <= 100
    ensures c.title == name + " 진척도"
  {
    Card(Progress(ProjectProgress, name), name + " 진척도")
  }

  /** The three listed projects show their listed values. */
  lemma ListedProjectValues()
    ensures ProgressCard("내부통제 시스템 고도화").percent == 75
    ensures ProgressCard("차세대 AI 엔진 개발").percent == 40
    ensures ProgressCard("데이터 파이프라인 구축").percent == 90
  {
  }
}
