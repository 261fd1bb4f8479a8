TestResult.DisplayName,TestResult.Outcome,TestResult.Duration,TestResult.ResourceCount,RandomSeed
DataLoader.SecondTargetOverruns (well-formedness),Passed,00:00:00.6053904,171966,0
DataLoader.SecondTargetOverruns (correctness),Passed,00:00:00.5383158,199877,0
